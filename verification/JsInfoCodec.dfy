/** The wire form of FormJsInfo, of the vector ReloadForm sends, and what a receiver makes of it. */
module JsInfoCodec {
  import opened SortedMaps
  import opened JsonValues
  import opened Ipc
  import opened SharedMemory
  import opened ProviderCodec

  const IMAGE_DATA_THRESHOLD := 128
  const MAX_ALLOW_SIZE := 8 * 1024

  // The fields in the order in which they travel, before and after the form data.
  datatype Identity = Identity(
    formId: int,
    formName: string,
    bundleName: string,
    abilityName: string,
    moduleName: string,
    formTempFlag: bool,
    jsFormCodePath: string)

  datatype Details = Details(
    formSrc: string,
    designWidth: int,
    autoDesignWidth: bool,
    versionCode: int,
    versionName: string,
    compatibleVersion: int,
    formType: int,
    uiSyntax: int,
    isDynamic: bool,
    transparencyEnabled: bool,
    templateFormImperativeFwk: string)

  datatype JsInfo = JsInfo(
    identity: Identity,
    formData: string,
    details: Details,
    provider: Data,
    imageDataMap: seq<Entry<string>>,
    modulePkgNameMap: seq<Entry<string>>)

  const FRESH_INFO := JsInfo(
    Identity(0, "", "", "", "", false, ""), "",
    Details("", 0, false, 0, "", 0, 1, 1, true, false, ""), FRESH, [], [])

  function EncIdentity(f: Identity): seq<Token>
  {
    [Int64(f.formId), Utf16(f.formName), Utf16(f.bundleName), Utf16(f.abilityName), Utf16(f.moduleName),
     Boolean(f.formTempFlag), Utf16(f.jsFormCodePath)]
  }

  function DecIdentity(m: Misread, t0: seq<Token>): (Identity, seq<Token>)
  {
    var (formId, t1) := TakeInt64(m, t0);
    var (formName, t2) := TakeUtf16(m, t1);
    var (bundleName, t3) := TakeUtf16(m, t2);
    var (abilityName, t4) := TakeUtf16(m, t3);
    var (moduleName, t5) := TakeUtf16(m, t4);
    var (formTempFlag, t6) := TakeBool(m, t5);
    var (jsFormCodePath, t7) := TakeUtf16(m, t6);
    (Identity(formId, formName, bundleName, abilityName, moduleName, formTempFlag, jsFormCodePath), t7)
  }

  function EncDetails(d: Details): seq<Token>
  {
    [Utf16(d.formSrc), Int32(d.designWidth), Boolean(d.autoDesignWidth),
     Uint32(d.versionCode), Utf16(d.versionName), Uint32(d.compatibleVersion),
     Int32(d.formType), Int32(d.uiSyntax), Boolean(d.isDynamic), Boolean(d.transparencyEnabled),
     Utf16(d.templateFormImperativeFwk)]
  }

  function DecDetails(m: Misread, t0: seq<Token>): (Details, seq<Token>)
  {
    var (formSrc, t1) := TakeUtf16(m, t0);
    var (designWidth, t2) := TakeInt32(m, t1);
    var (autoDesignWidth, t3) := TakeBool(m, t2);
    var (versionCode, t4) := TakeUint32(m, t3);
    var (versionName, t5) := TakeUtf16(m, t4);
    var (compatibleVersion, t6) := TakeUint32(m, t5);
    var (formType, t7) := TakeInt32(m, t6);
    var (uiSyntax, t8) := TakeInt32(m, t7);
    var (isDynamic, t9) := TakeBool(m, t8);
    var (transparencyEnabled, t10) := TakeBool(m, t9);
    var (template, t11) := TakeUtf16(m, t10);
    (Details(formSrc, designWidth, autoDesignWidth, versionCode, versionName, compatibleVersion,
             formType, uiSyntax, isDynamic, transparencyEnabled, template), t11)
  }

  lemma Unstack(fields: seq<Token>, k: seq<Token>)
    ensures var ts := fields + k;
            forall i :: 0 <= i < |fields| ==> ts[i..] != [] && ts[i..][0] == fields[i] && ts[i..][1..] == ts[i + 1..]
  {
  }

  lemma IdentityRoundTrip(m: Misread, f: Identity, k: seq<Token>)
    ensures DecIdentity(m, EncIdentity(f) + k) == (f, k)
  {
  }

  lemma DetailsRoundTrip(m: Misread, d: Details, k: seq<Token>)
    ensures DecDetails(m, EncDetails(d) + k) == (d, k)
  {
    var ts := EncDetails(d) + k;
    Unstack(EncDetails(d), k);
    assert ts == ts[0..] && ts[11..] == k;
    assert TakeUtf16(m, ts) == (d.formSrc, ts[1..]) && TakeInt32(m, ts[1..]) == (d.designWidth, ts[2..]);
    assert TakeBool(m, ts[2..]) == (d.autoDesignWidth, ts[3..]) && TakeUint32(m, ts[3..]) == (d.versionCode, ts[4..]);
    assert TakeUtf16(m, ts[4..]) == (d.versionName, ts[5..]);
    assert TakeUint32(m, ts[5..]) == (d.compatibleVersion, ts[6..]);
    assert TakeInt32(m, ts[6..]) == (d.formType, ts[7..]) && TakeInt32(m, ts[7..]) == (d.uiSyntax, ts[8..]);
    assert TakeBool(m, ts[8..]) == (d.isDynamic, ts[9..]) && TakeBool(m, ts[9..]) == (d.transparencyEnabled, ts[10..]);
    assert TakeUtf16(m, ts[10..]) == (d.templateFormImperativeFwk, ts[11..]);
  }

  // ---- the outer image section: the sender's shared images ----

  function EncShared(e: Entry<SharedImage>): seq<Token>
  {
    [Int32(1), Ashmem(e.val.content), Utf16(e.key)]
  }

  function EncSharedAll(es: seq<Entry<SharedImage>>): seq<Token>
  {
    if es == [] then [] else EncShared(es[0]) + EncSharedAll(es[1..])
  }

  lemma {:induction false} EncSharedAppend(es: seq<Entry<SharedImage>>, e: Entry<SharedImage>)
    ensures EncSharedAll(es + [e]) == EncSharedAll(es) + EncShared(e)
  {
    if es == [] {
      assert [e][1..] == [] && EncSharedAll([]) == [];
    } else {
      assert (es + [e])[1..] == es[1..] + [e];
      EncSharedAppend(es[1..], e);
    }
  }

  function EncOuterImages(d: Data): seq<Token>
  {
    [Int32(d.imageState)]
    + if d.imageState != IMAGE_DATA_STATE_ADDED then []
      else [Int32(ToInt32(|d.shared|))] + if |d.shared| > IMAGE_DATA_THRESHOLD then [] else EncSharedAll(d.shared)
  }

  function TakeNamedAshmem(m: Misread, ts: seq<Token>): (Option<Entry<string>>, seq<Token>)
  {
    match TakeAshmem(m, ts)
    case (None, r) => (None, r)
    case (Some(content), r) => var (name, r1) := TakeUtf16(m, r); (Some(Entry(name, content)), r1)
  }

  /** Stops at the first missing shared memory without reporting it. */
  function DecShared(m: Misread, ts: seq<Token>, n: int, done: seq<Entry<string>>): (seq<Entry<string>>, seq<Token>)
    decreases n
  {
    if n <= 0 then (done, ts)
    else match TakeNamedAshmem(m, ts)
      case (None, r) => (done, r)
      case (Some(e), r) => DecShared(m, r, n - 1, Put(done, e.key, e.val))
  }

  function DecOuterImages(m: Misread, ts: seq<Token>, done: seq<Entry<string>>): (seq<Entry<string>>, seq<Token>)
  {
    var (state, r) := TakeInt32(m, ts);
    if state != IMAGE_DATA_STATE_ADDED then (done, r)
    else
      var (size, r1) := TakeInt32(m, r);
      if size > IMAGE_DATA_THRESHOLD then (done, r1) else DecShared(m, r1, size, done)
  }

  /** Names and bytes of shared images. */
  function Contents(es: seq<Entry<SharedImage>>): (r: seq<Entry<string>>)
    ensures |r| == |es|
    ensures forall i :: 0 <= i < |es| ==> r[i] == Entry(es[i].key, es[i].val.content)
  {
    if es == [] then [] else [Entry(es[0].key, es[0].val.content)] + Contents(es[1..])
  }

  lemma OneSharedRoundTrip(m: Misread, e: Entry<SharedImage>, k: seq<Token>)
    ensures TakeNamedAshmem(m, EncShared(e) + k) == (Some(Entry(e.key, e.val.content)), k)
  {
  }

  lemma {:induction false} SharedRoundTrip(
      m: Misread, es: seq<Entry<SharedImage>>, k: seq<Token>, done: seq<Entry<string>>)
    ensures DecShared(m, EncSharedAll(es) + k, |es|, done) == (PutAll(done, Contents(es)), k)
    decreases es
  {
    hide EncShared, TakeNamedAshmem;
    if es == [] {
      assert EncSharedAll(es) + k == k;
    } else {
      var e := es[0];
      assert EncSharedAll(es) + k == EncShared(e) + (EncSharedAll(es[1..]) + k);
      OneSharedRoundTrip(m, e, EncSharedAll(es[1..]) + k);
      SharedRoundTrip(m, es[1..], k, Put(done, e.key, e.val.content));
      assert Contents(es)[1..] == Contents(es[1..]);
    }
  }

  lemma ContentsSorted(es: seq<Entry<SharedImage>>)
    requires Sorted(es)
    ensures Sorted(Contents(es)) && PutAll([], Contents(es)) == Contents(es)
  {
    assert [] + Contents(es) == Contents(es);
    PutAllAscending([], Contents(es));
  }

  /** The count is not one that wraps round to at most 128 where no entries follow. */
  predicate CountAgrees(d: Data)
  {
    d.imageState == IMAGE_DATA_STATE_ADDED && |d.shared| > IMAGE_DATA_THRESHOLD ==>
      ToInt32(|d.shared|) <= 0 || ToInt32(|d.shared|) > IMAGE_DATA_THRESHOLD
  }

  /** A missing shared memory ends the section: what was read before it stays, and nobody is told. */
  lemma MissingMemoryStops(m: Misread, es: seq<Entry<SharedImage>>, n: int, k: seq<Token>, done: seq<Entry<string>>)
    requires |es| < n <= IMAGE_DATA_THRESHOLD
    ensures var ts := [Int32(IMAGE_DATA_STATE_ADDED), Int32(n)] + (EncSharedAll(es) + ([Int32(0)] + k));
            DecOuterImages(m, ts, done) == (PutAll(done, Contents(es)), k)
  {
    hide EncSharedAll, DecShared, Contents, PutAll;
    var ts := [Int32(IMAGE_DATA_STATE_ADDED), Int32(n)] + (EncSharedAll(es) + ([Int32(0)] + k));
    assert ts[1..][1..] == EncSharedAll(es) + ([Int32(0)] + k);
    SharedThenMissing(m, es, n, k, done);
  }

  lemma NoMemoryHere(m: Misread, k: seq<Token>)
    ensures TakeNamedAshmem(m, [Int32(0)] + k) == (None, k)
  {
  }

  lemma {:induction false} SharedThenMissing(
      m: Misread, es: seq<Entry<SharedImage>>, n: int, k: seq<Token>, done: seq<Entry<string>>)
    requires |es| < n
    ensures DecShared(m, EncSharedAll(es) + ([Int32(0)] + k), n, done) == (PutAll(done, Contents(es)), k)
    decreases es
  {
    hide EncShared, TakeNamedAshmem;
    if es == [] {
      assert EncSharedAll(es) + ([Int32(0)] + k) == [Int32(0)] + k;
      NoMemoryHere(m, k);
    } else {
      var (e, rest) := (es[0], EncSharedAll(es[1..]) + ([Int32(0)] + k));
      assert EncSharedAll(es) + ([Int32(0)] + k) == EncShared(e) + rest;
      OneSharedRoundTrip(m, e, rest);
      SharedThenMissing(m, es[1..], n - 1, k, Put(done, e.key, e.val.content));
      assert Contents(es)[1..] == Contents(es[1..]);
    }
  }

  /** Over-limit counts are announced but not followed by entries, and both sides agree on that. */
  lemma OuterImagesRoundTrip(m: Misread, d: Data, done: seq<Entry<string>>, k: seq<Token>)
    requires Sorted(d.shared) && CountAgrees(d)
    ensures DecOuterImages(m, EncOuterImages(d) + k, done) == (PutAll(done, OuterImages(d)), k)
    ensures PutAll([], OuterImages(d)) == OuterImages(d)
  {
    hide EncSharedAll, Contents, Put, PutAll, ToInt32, TakeNamedAshmem;
    var ts := EncOuterImages(d) + k;
    if d.imageState != IMAGE_DATA_STATE_ADDED {
      assert ts[1..] == k;
    } else if |d.shared| > IMAGE_DATA_THRESHOLD {
      assert ts[1..] == [Int32(ToInt32(|d.shared|))] + k && ts[1..][1..] == k;
    } else {
      assert ts[1..] == [Int32(|d.shared|)] + (EncSharedAll(d.shared) + k);
      assert ts[1..][1..] == EncSharedAll(d.shared) + k;
      SharedRoundTrip(m, d.shared, k, done);
    }
    ContentsSorted(d.shared);
    NothingPut(done);
    NothingPut([]);
  }

  lemma NothingPut(done: seq<Entry<string>>)
    ensures PutAll(done, []) == done
  {
  }

  function OuterImages(d: Data): seq<Entry<string>>
  {
    if d.imageState == IMAGE_DATA_STATE_ADDED && |d.shared| <= IMAGE_DATA_THRESHOLD then Contents(d.shared) else []
  }

  // ---- the package-name map, split into keys and values ----

  function Keys(es: seq<Entry<string>>): (r: seq<string>)
    ensures |r| == |es|
  {
    seq(|es|, i requires 0 <= i < |es| => es[i].key)
  }

  function Vals(es: seq<Entry<string>>): (r: seq<string>)
    ensures |r| == |es|
  {
    seq(|es|, i requires 0 <= i < |es| => es[i].val)
  }

  /** std::map::emplace: a key that is present keeps its value. */
  function Emplace(m: seq<Entry<string>>, k: string, v: string): seq<Entry<string>>
  {
    if Lookup(m, k).Some? then m else Put(m, k, v)
  }

  function EmplaceAll(m: seq<Entry<string>>, ks: seq<string>, vs: seq<string>): seq<Entry<string>>
    requires |ks| == |vs|
    decreases ks
  {
    if ks == [] then m else EmplaceAll(Emplace(m, ks[0], vs[0]), ks[1..], vs[1..])
  }

  lemma {:induction false} AbsentLast(m: seq<Entry<string>>, k: string)
    requires forall i :: 0 <= i < |m| ==> Less(m[i].key, k)
    ensures Lookup(m, k) == None
  {
    if m == [] {
    } else {
      LessTotal(k, k);
      AbsentLast(m[1..], k);
    }
  }

  lemma {:induction false} EmplaceAllAscending(m: seq<Entry<string>>, es: seq<Entry<string>>)
    requires Sorted(m + es)
    ensures EmplaceAll(m, Keys(es), Vals(es)) == m + es
    decreases es
  {
    hide Put, Lookup, Less;
    if es == [] {
      assert m + es == m;
    } else {
      assert (m + es)[|m|] == es[0];
      forall i | 0 <= i < |m| ensures Less(m[i].key, es[0].key) {
        assert (m + es)[i] == m[i];
      }
      AbsentLast(m, es[0].key);
      PutLast(m, es[0].key, es[0].val);
      assert m + [es[0]] + es[1..] == m + es;
      EmplaceAllAscending(m + [es[0]], es[1..]);
      assert Keys(es)[1..] == Keys(es[1..]) && Vals(es)[1..] == Vals(es[1..]);
    }
  }

  function EncPkgNames(es: seq<Entry<string>>): seq<Token>
  {
    [Strings(Keys(es)), Strings(Vals(es))]
  }

  function DecPkgNames(m: Misread, ts: seq<Token>, done: seq<Entry<string>>): (seq<Entry<string>>, seq<Token>)
  {
    var (keys, r) := TakeStrings(m, ts);
    if keys.None? then (done, r)
    else
      var (values, r1) := TakeStrings(m, r);
      if values.None? || |keys.value| != |values.value| then (done, r1)
      else (EmplaceAll(done, keys.value, values.value), r1)
  }

  /** The first value listed under a key, if there is one. */
  function FirstUnder(ks: seq<string>, vs: seq<string>, k: string): Option<string>
    requires |ks| == |vs|
  {
    if ks == [] then None else if ks[0] == k then Some(vs[0]) else FirstUnder(ks[1..], vs[1..], k)
  }

  lemma {:induction false} EmplaceAllLookup(m: seq<Entry<string>>, ks: seq<string>, vs: seq<string>, k: string)
    requires |ks| == |vs| && Sorted(m)
    ensures Lookup(EmplaceAll(m, ks, vs), k) == if Lookup(m, k).Some? then Lookup(m, k) else FirstUnder(ks, vs, k)
    decreases ks
  {
    if ks == [] {
    } else {
      PutSorted(m, ks[0], vs[0]);
      PutLookup(m, ks[0], vs[0], k);
      EmplaceAllLookup(Emplace(m, ks[0], vs[0]), ks[1..], vs[1..], k);
    }
  }

  /** Any two vectors, also ones no map was split into: they bind in order, a key that is bound
      keeps its value, and vectors of different lengths bind nothing. */
  lemma AnyPkgNames(m: Misread, ks: seq<string>, vs: seq<string>, done: seq<Entry<string>>, t: seq<Token>, k: string)
    requires Sorted(done)
    ensures var (names, r) := DecPkgNames(m, [Strings(ks), Strings(vs)] + t, done);
            && r == t
            && if |ks| != |vs| then names == done
               else Lookup(names, k) == if Lookup(done, k).Some? then Lookup(done, k) else FirstUnder(ks, vs, k)
  {
    hide EmplaceAll, Lookup;
    assert ([Strings(ks), Strings(vs)] + t)[1..][1..] == t;
    if |ks| == |vs| { EmplaceAllLookup(done, ks, vs, k); }
  }

  lemma PkgNamesRoundTrip(m: Misread, es: seq<Entry<string>>, k: seq<Token>)
    requires Sorted(es)
    ensures DecPkgNames(m, EncPkgNames(es) + k, []) == (es, k)
  {
    var ts := EncPkgNames(es) + k;
    assert ts[1..][1..] == k;
    assert [] + es == es;
    EmplaceAllAscending([], es);
  }

  // ---- FormJsInfo ----

  function EncProvider(d: Data): seq<Token> { [Int32(1)] + EncData(d) }

  /** ReadParcelable<FormProviderData>. */
  function DecProvider(m: Misread, ts: seq<Token>): Option<(Data, seq<Token>)>
  {
    var (flag, r) := TakeInt32(m, ts);
    if flag == 0 then None else DecData(m, r, FRESH)
  }

  function EncTail(x: JsInfo): seq<Token>
  {
    EncProvider(x.provider) + (EncOuterImages(x.provider) + EncPkgNames(x.modulePkgNameMap))
  }

  function EncInfo(x: JsInfo): seq<Token>
  {
    EncIdentity(x.identity) + (EncText(x.formData) + (EncDetails(x.details) + EncTail(x)))
  }

  function DecTail(m: Misread, ts: seq<Token>, init: JsInfo): Option<(JsInfo, seq<Token>)>
  {
    match DecProvider(m, ts)
    case None => None
    case Some((provider, r)) =>
      var (images, r1) := DecOuterImages(m, r, init.imageDataMap);
      var (names, r2) := DecPkgNames(m, r1, init.modulePkgNameMap);
      Some((init.(provider := provider, imageDataMap := images, modulePkgNameMap := names), r2))
  }

  /** ReadFromParcel on an object whose previous state is `init`. */
  function DecInfo(m: Misread, ts: seq<Token>, init: JsInfo): Option<(JsInfo, seq<Token>)>
  {
    var (identity, r) := DecIdentity(m, ts);
    match DecText(m, r, MAX_FORM_DATA_BUFFER_SIZE)
    case None => None
    case Some((formData, r1)) =>
      var (details, r2) := DecDetails(m, r1);
      DecTail(m, r2, init.(identity := identity, formData := formData, details := details))
  }

  /** What arrives: every field (the form data whole up to INT32_MAX bytes), but images move by
      one place. */
  function InfoArrival(x: JsInfo): JsInfo
  {
    x.(formData := ArrivedText(x.formData), provider := Arrival(x.provider), imageDataMap := OuterImages(x.provider))
  }

  ghost predicate InfoRepresentable(x: JsInfo)
  {
    Representable(x.provider) && Sorted(x.modulePkgNameMap)
  }

  /** When Marshalling succeeds, as long as the system does not fail. */
  predicate InfoWritable(x: JsInfo) { ToInt32(|x.formData|) <= MAX_FORM_DATA_BUFFER_SIZE }

  predicate InfoInRange(x: JsInfo) { InRange(x.provider) && |x.provider.shared| <= INT32_MAX }

  ghost predicate InfoReadable(x: JsInfo) { Readable(x.provider) && CountAgrees(x.provider) }

  lemma TailRoundTrip(m: Misread, x: JsInfo, init: JsInfo, k: seq<Token>)
    requires InfoRepresentable(x) && init.imageDataMap == [] && init.modulePkgNameMap == []
    ensures var r := DecTail(m, EncTail(x) + k, init);
            && (InfoReadable(x) ==>
                  r == Some((init.(provider := Arrival(x.provider), imageDataMap := OuterImages(x.provider),
                                   modulePkgNameMap := x.modulePkgNameMap), k)))
            && (!Readable(x.provider) ==>
                  (r.Some? ==> r.value.0.provider != Arrival(x.provider)) && (InRange(x.provider) ==> r == None))
  {
    hide EncData, DecData, EncOuterImages, DecOuterImages, DecPkgNames, Keys, Vals, Readable, Representable, InRange;
    var k1 := EncPkgNames(x.modulePkgNameMap) + k;
    var k2 := EncOuterImages(x.provider) + k1;
    var ts := EncTail(x) + k;
    assert ts[0] == Int32(1) && ts[1..] == EncData(x.provider) + k2;
    DataRoundTrip(m, x.provider, k2);
    if InfoReadable(x) {
      SharedSorted(x.provider);
      OuterImagesRoundTrip(m, x.provider, [], k1);
      PkgNamesRoundTrip(m, x.modulePkgNameMap, k);
    }
  }

  lemma SharedSorted(d: Data)
    requires Representable(d)
    ensures Sorted(d.shared)
  {
  }

  /** The leading fields and the form data arrive, and the rest of what is read is the tail. */
  lemma TailFollows(m: Misread, x: JsInfo, k: seq<Token>)
    requires InfoWritable(x)
    ensures DecInfo(m, EncIdentity(x.identity) + (EncText(x.formData) + (EncDetails(x.details) + k)), FRESH_INFO)
         == DecTail(m, k, InfoStart(x))
  {
    hide EncIdentity, DecIdentity, EncText, DecText, EncDetails, DecDetails, DecTail, ArrivedText;
    var k2 := EncDetails(x.details) + k;
    IdentityRoundTrip(m, x.identity, EncText(x.formData) + k2);
    TextRoundTrip(m, x.formData, MAX_FORM_DATA_BUFFER_SIZE, k2);
    DetailsRoundTrip(m, x.details, k);
  }

  function InfoStart(x: JsInfo): JsInfo
  {
    FRESH_INFO.(identity := x.identity, formData := ArrivedText(x.formData), details := x.details)
  }

  /** Self-delimiting under nesting: a marshalled info followed by anything is read back as what
      was sent, with the cursor at what follows, if it is readable, and differs, or is refused, if
      its provider data is not; the form data is whole exactly when its length did not wrap round
      on the way. */
  lemma InfoRoundTrip(m: Misread, x: JsInfo, k: seq<Token>)
    requires InfoRepresentable(x) && InfoWritable(x)
    ensures var r := DecInfo(m, EncInfo(x) + k, FRESH_INFO);
            && (InfoReadable(x) ==> r == Some((InfoArrival(x), k)))
            && (!Readable(x.provider) ==>
                  (r.Some? ==> r.value.0 != InfoArrival(x)) && (InRange(x.provider) ==> r == None))
    ensures InfoArrival(x).formData == x.formData <==> Uncut(x.formData)
    ensures var r := DecInfo(m, EncInfo(x) + k, FRESH_INFO);
            InfoReadable(x) ==>
              && r.Some? && r.value.0.identity == x.identity && r.value.0.details == x.details
              && (|x.formData| <= INT32_MAX ==> r.value.0.formData == x.formData)
              && r.value.0.provider.json
                   == (if x.provider.json in {Null, Arr([]), Obj([])} then Obj([]) else x.provider.json)
              && r.value.0.provider.imageState == x.provider.imageState
              && r.value.0.modulePkgNameMap == x.modulePkgNameMap
  {
    hide EncIdentity, EncText, EncDetails, EncTail, DecTail, DecInfo;
    hide ArrivedText, Uncut, Readable, CountAgrees, InRange;
    var k1 := EncTail(x) + k;
    assert EncInfo(x) + k == EncIdentity(x.identity) + (EncText(x.formData) + (EncDetails(x.details) + k1));
    TailFollows(m, x, k1);
    TailRoundTrip(m, x, InfoStart(x), k);
    ArrivedWhole(x.formData);
    UncutIs(x.formData);
    NormalIs(x.provider.json);
  }

  lemma UncutIs(s: string)
    ensures |s| <= INT32_MAX ==> Uncut(s)
  {
  }

  /** A count that disagrees makes the reader look for entries in the names behind it. */
  lemma WrongCountMisread(x: JsInfo, k: seq<Token>)
    requires InfoRepresentable(x) && InfoWritable(x) && Readable(x.provider) && !CountAgrees(x.provider)
    ensures var r := DecInfo(DEAD_END, EncInfo(x) + k, FRESH_INFO); r.Some? && r.value.1 != k && InPieces(r.value.1)
  {
    hide EncIdentity, EncText, EncDetails, EncData, DecData, DecInfo, ToInt32, Keys, Vals, Readable;
    var k1 := EncPkgNames(x.modulePkgNameMap) + k;
    var k2 := EncOuterImages(x.provider) + k1;
    var k3 := EncTail(x) + k;
    assert EncInfo(x) + k == EncIdentity(x.identity) + (EncText(x.formData) + (EncDetails(x.details) + k3));
    TailFollows(DEAD_END, x, k3);
    assert k3[0] == Int32(1) && k3[1..] == EncData(x.provider) + k2;
    DataRoundTrip(DEAD_END, x.provider, k2);
    assert k2[1..] == [Int32(ToInt32(|x.provider.shared|))] + k1 && k2[1..][1..] == k1;
    assert DecOuterImages(DEAD_END, k2, []) == ([], [Torn] + k1);
    assert DecPkgNames(DEAD_END, [Torn] + k1, []) == ([], [Torn] + ([Torn] + k1));
  }

  /** Every receiver reads what was sent exactly when the info is readable. */
  lemma InfoArrivesExactlyWhen(x: JsInfo, k: seq<Token>)
    requires InfoRepresentable(x) && InfoWritable(x)
    ensures (forall m: Misread :: DecInfo(m, EncInfo(x) + k, FRESH_INFO) == Some((InfoArrival(x), k)))
       <==> InfoReadable(x)
  {
    hide EncInfo, DecInfo, InfoArrival, InfoRepresentable, Readable, CountAgrees, InRange;
    forall m: Misread ensures InfoReadable(x) ==> DecInfo(m, EncInfo(x) + k, FRESH_INFO) == Some((InfoArrival(x), k)) {
      InfoRoundTrip(m, x, k);
    }
    if !Readable(x.provider) {
      InfoRoundTrip(DEAD_END, x, k);
    } else if !CountAgrees(x.provider) {
      WrongCountMisread(x, k);
    }
  }

  /** An info that has arrived can be sent on. */
  lemma ArrivalSendable(x: JsInfo)
    requires InfoRepresentable(x) && InfoWritable(x)
    ensures InfoRepresentable(InfoArrival(x)) && InfoWritable(InfoArrival(x))
    ensures Readable(x.provider) ==> InfoReadable(InfoArrival(x))
  {
  }

  // ---- where images go, hop by hop ----

  /** One hop, in any state and with any number of shared images whose count agrees: the sender's
      raw images reach the provider data, its shared images the info, unless there are more than
      128 of them. */
  lemma HopConservesImages(m: Misread, x: JsInfo, k: seq<Token>)
    requires InfoRepresentable(x) && InfoWritable(x) && InfoReadable(x)
    ensures var r := DecInfo(m, EncInfo(x) + k, FRESH_INFO);
            var added := x.provider.imageState == IMAGE_DATA_STATE_ADDED;
            && r.Some? && r.value.1 == k && r.value.0.provider.raw == []
            && Contents(r.value.0.provider.shared) == (if added then x.provider.raw else [])
            && r.value.0.imageDataMap ==
                 (if added && |x.provider.shared| <= IMAGE_DATA_THRESHOLD then Contents(x.provider.shared) else [])
  {
    hide EncInfo, DecInfo, InfoRepresentable, InfoWritable, InfoReadable, Received, Contents;
    InfoRoundTrip(m, x, k);
    ReceivedContents(x.provider.raw);
    ReceivedContents([]);
  }

  lemma ReceivedContents(es: seq<Entry<string>>)
    ensures Contents(Received(es)) == es && Contents([]) == []
  {
  }

  /** Two hops: an image set that is never converted ends up in the second receiver's outer map,
      exactly when it has at most 128 images; a larger one disappears without an error. */
  lemma UnconvertedImagesTakeTwoHops(m: Misread, x: JsInfo, k1: seq<Token>, k2: seq<Token>)
    requires InfoRepresentable(x) && InfoWritable(x) && InfoReadable(x)
    requires x.provider.imageState == IMAGE_DATA_STATE_ADDED
    ensures var first := DecInfo(m, EncInfo(x) + k1, FRESH_INFO);
            && first.Some?
            && var second := DecInfo(m, EncInfo(first.value.0) + k2, FRESH_INFO);
            && second.Some? && second.value.1 == k2
            && second.value.0.provider.shared == []
            && (second.value.0.imageDataMap == x.provider.raw <==>
                |x.provider.raw| <= IMAGE_DATA_THRESHOLD)
            && (|x.provider.raw| > IMAGE_DATA_THRESHOLD ==> second.value.0.imageDataMap == [])
  {
    hide EncInfo, DecInfo, InfoRepresentable, InfoWritable, InfoReadable, Received, Contents;
    InfoRoundTrip(m, x, k1);
    ArrivalSendable(x);
    InfoRoundTrip(m, InfoArrival(x), k2);
    ReceivedContents(x.provider.raw);
  }

  // ---- the vector of infos and the Want of ReloadForm ----

  function EncInfos(xs: seq<JsInfo>): seq<Token>
  {
    if xs == [] then [] else [Int32(1)] + EncInfo(xs[0]) + EncInfos(xs[1..])
  }

  lemma {:induction false} EncInfosConcat(a: seq<JsInfo>, b: seq<JsInfo>)
    ensures EncInfos(a + b) == EncInfos(a) + EncInfos(b)
    decreases |a|
  {
    hide EncInfo;
    if a == [] {
      assert a + b == b;
    } else {
      assert (a + b)[1..] == a[1..] + b;
      EncInfosConcat(a[1..], b);
    }
  }

  lemma EncInfosAppend(xs: seq<JsInfo>, x: JsInfo)
    ensures EncInfos(xs + [x]) == EncInfos(xs) + ([Int32(1)] + EncInfo(x))
  {
    hide EncInfo;
    EncInfosConcat(xs, [x]);
    assert [x][1..] == [];
  }

  function EncVector(xs: seq<JsInfo>): seq<Token> { [Int32(ToInt32(|xs|))] + EncInfos(xs) }

  /** ReadParcelable<FormJsInfo>. */
  function DecOne(m: Misread, ts: seq<Token>): Option<(JsInfo, seq<Token>)>
  {
    var (flag, r) := TakeInt32(m, ts);
    if flag == 0 then None else DecInfo(m, r, FRESH_INFO)
  }

  function DecInfos(m: Misread, ts: seq<Token>, n: int, done: seq<JsInfo>): Option<(seq<JsInfo>, seq<Token>)>
    decreases n
  {
    if n <= 0 then Some((done, ts))
    else match DecOne(m, ts)
      case None => None
      case Some((x, r)) => DecInfos(m, r, n - 1, done + [x])
  }

  function DecVector(m: Misread, ts: seq<Token>): Option<(seq<JsInfo>, seq<Token>)>
  {
    var (n, r) := TakeInt32(m, ts);
    if n < 0 || n > MAX_ALLOW_SIZE then None else DecInfos(m, r, n, [])
  }

  function EncReload(xs: seq<JsInfo>, want: Want): seq<Token> { EncVector(xs) + [Int32(1), WantBody(want)] }

  /** What HandleReloadForm passes on: the infos and the Want. */
  function DecReload(m: Misread, ts: seq<Token>): Option<(seq<JsInfo>, Want)>
  {
    match DecVector(m, ts)
    case None => None
    case Some((xs, r)) => match TakeWant(m, r).0 case None => None case Some(w) => Some((xs, w))
  }

  function Arrivals(xs: seq<JsInfo>): seq<JsInfo>
  {
    if xs == [] then [] else [InfoArrival(xs[0])] + Arrivals(xs[1..])
  }

  ghost predicate AllReadable(xs: seq<JsInfo>) { forall i :: 0 <= i < |xs| ==> InfoReadable(xs[i]) }

  ghost predicate AllSendable(xs: seq<JsInfo>)
  {
    forall i :: 0 <= i < |xs| ==> InfoRepresentable(xs[i]) && InfoWritable(xs[i])
  }

  predicate AllInRange(xs: seq<JsInfo>) { forall i :: 0 <= i < |xs| ==> InfoInRange(xs[i]) }

  predicate AllCounted(xs: seq<JsInfo>) { forall i :: 0 <= i < |xs| ==> CountAgrees(xs[i].provider) }

  lemma OneInfoRoundTrip(m: Misread, x: JsInfo, k: seq<Token>)
    requires InfoRepresentable(x) && InfoWritable(x)
    ensures var r := DecOne(m, [Int32(1)] + (EncInfo(x) + k));
            && (InfoReadable(x) ==> r == Some((InfoArrival(x), k)))
            && (!Readable(x.provider) ==>
                  (r.Some? ==> r.value.0 != InfoArrival(x)) && (InRange(x.provider) ==> r == None))
    ensures !InfoReadable(x) ==>
      var r := DecOne(DEAD_END, [Int32(1)] + (EncInfo(x) + k));
      r.Some? ==> r.value.0 != InfoArrival(x) || InPieces(r.value.1)
  {
    hide EncInfo, DecInfo, InfoArrival, InfoRepresentable, InfoWritable, Readable, CountAgrees, InRange;
    assert ([Int32(1)] + (EncInfo(x) + k))[1..] == EncInfo(x) + k;
    InfoRoundTrip(m, x, k);
    if !Readable(x.provider) {
      InfoRoundTrip(DEAD_END, x, k);
    } else if !CountAgrees(x.provider) {
      WrongCountMisread(x, k);
    }
  }

  /** What has been read stays in front, and the list gets as long as announced. */
  lemma {:induction false} DecInfosExtends(m: Misread, ts: seq<Token>, n: nat, done: seq<JsInfo>)
    ensures var r := DecInfos(m, ts, n, done);
            r.Some? ==> |r.value.0| == |done| + n && r.value.0[..|done|] == done
    decreases n
  {
    hide DecOne;
    if n == 0 || DecOne(m, ts) == None {
    } else {
      var (x, r) := DecOne(m, ts).value;
      DecInfosExtends(m, r, n - 1, done + [x]);
      var all := DecInfos(m, r, n - 1, done + [x]);
      if all.Some? {
        assert all.value.0[..|done|] == all.value.0[..|done| + 1][..|done|] == done;
      }
    }
  }

  /** A first info that is not what was sent stays in the list. */
  lemma WrongInfoStays(m: Misread, ts: seq<Token>, n: nat, done: seq<JsInfo>, due: JsInfo, others: seq<JsInfo>)
    requires n > 0 && (DecOne(m, ts).Some? ==> DecOne(m, ts).value.0 != due)
    ensures DecInfos(m, ts, n, done).Some? ==> DecInfos(m, ts, n, done).value.0 != done + ([due] + others)
    ensures DecOne(m, ts) == None ==> DecInfos(m, ts, n, done) == None
  {
    hide DecOne;
    if DecOne(m, ts).Some? {
      var (y, r) := DecOne(m, ts).value;
      DecInfosExtends(m, r, n - 1, done + [y]);
      var all := DecInfos(m, r, n - 1, done + [y]);
      if all.Some? {
        assert all.value.0[|done|] == all.value.0[..|done| + 1][|done|] == y;
        assert (done + ([due] + others))[|done|] == due;
      }
    }
  }

  lemma {:induction false} InfosRoundTrip(m: Misread, xs: seq<JsInfo>, k: seq<Token>, done: seq<JsInfo>)
    requires AllSendable(xs)
    ensures var r := DecInfos(m, EncInfos(xs) + k, |xs|, done);
            if AllReadable(xs) then r == Some((done + Arrivals(xs), k))
            else
              && (AllCounted(xs) && r.Some? ==> r.value.0 != done + Arrivals(xs))
              && (AllInRange(xs) ==> r == None)
    decreases xs
  {
    hide EncInfo, DecOne, InfoArrival, InfoRepresentable, InfoWritable, Readable, ToInt32, InRange;
    if xs == [] {
      assert EncInfos(xs) + k == k && done + Arrivals(xs) == done;
    } else {
      var k1 := EncInfos(xs[1..]) + k;
      assert EncInfos(xs) + k == [Int32(1)] + (EncInfo(xs[0]) + k1);
      OneInfoRoundTrip(m, xs[0], k1);
      assert AllReadable(xs) <==> InfoReadable(xs[0]) && AllReadable(xs[1..]);
      if InfoReadable(xs[0]) {
        InfosRoundTrip(m, xs[1..], k, done + [InfoArrival(xs[0])]);
        assert (done + [InfoArrival(xs[0])]) + Arrivals(xs[1..]) == done + Arrivals(xs);
      } else if CountAgrees(xs[0].provider) {
        WrongInfoStays(m, EncInfos(xs) + k, |xs|, done, InfoArrival(xs[0]), Arrivals(xs[1..]));
      } else {
        CountInRange(xs[0]);
      }
    }
  }

  lemma CountInRange(x: JsInfo)
    ensures InfoInRange(x) ==> CountAgrees(x.provider)
  {
  }

  /** A list that is not readable is spoilt for a reader in a dead end, whatever else is wrong with it. */
  lemma {:induction false} DeadEndInfos(xs: seq<JsInfo>, k: seq<Token>, done: seq<JsInfo>)
    requires AllSendable(xs) && !AllReadable(xs)
    ensures var r := DecInfos(DEAD_END, EncInfos(xs) + k, |xs|, done);
            r.Some? ==> r.value.0 != done + Arrivals(xs) || InPieces(r.value.1)
    decreases xs
  {
    hide EncInfo, DecOne, InfoArrival, InfoRepresentable, InfoWritable, InfoReadable, InRange;
    var k1 := EncInfos(xs[1..]) + k;
    assert EncInfos(xs) + k == [Int32(1)] + (EncInfo(xs[0]) + k1);
    OneInfoRoundTrip(DEAD_END, xs[0], k1);
    assert AllReadable(xs) <==> InfoReadable(xs[0]) && AllReadable(xs[1..]);
    if InfoReadable(xs[0]) {
      DeadEndInfos(xs[1..], k, done + [InfoArrival(xs[0])]);
      assert (done + [InfoArrival(xs[0])]) + Arrivals(xs[1..]) == done + Arrivals(xs);
    } else {
      var first := DecOne(DEAD_END, EncInfos(xs) + k);
      if first.Some? && InPieces(first.value.1) {
        NoInfoInPieces(EncInfos(xs) + k, |xs|, done);
      } else {
        WrongInfoStays(DEAD_END, EncInfos(xs) + k, |xs|, done, InfoArrival(xs[0]), Arrivals(xs[1..]));
      }
    }
  }

  lemma NothingInPieces(ts: seq<Token>)
    requires InPieces(ts)
    ensures DecOne(DEAD_END, ts) == None && TakeWant(DEAD_END, ts).0 == None
  {
  }

  lemma NoInfoInPieces(ts: seq<Token>, n: nat, done: seq<JsInfo>)
    requires n > 0 && DecOne(DEAD_END, ts).Some? && InPieces(DecOne(DEAD_END, ts).value.1)
    ensures var r := DecInfos(DEAD_END, ts, n, done); r.Some? ==> InPieces(r.value.1)
  {
    hide DecOne;
    var (x, r) := DecOne(DEAD_END, ts).value;
    NothingInPieces(r);
    assert n > 1 ==> DecInfos(DEAD_END, r, n - 1, done + [x]) == None;
  }

  lemma {:induction false} ArrivalsLength(xs: seq<JsInfo>)
    ensures |Arrivals(xs)| == |xs| && forall i :: 0 <= i < |xs| ==> Arrivals(xs)[i] == InfoArrival(xs[i])
  {
    hide InfoArrival;
    if xs == [] {
    } else {
      ArrivalsLength(xs[1..]);
    }
  }

  /** A list so long that its announced length wraps round to a small one: only the announced part
      is read, and another info stands where the Want is expected. */
  lemma WrappedListIsCut(m: Misread, xs: seq<JsInfo>, n: nat, k: seq<Token>)
    requires AllSendable(xs) && n < |xs|
    ensures var r := DecInfos(m, EncInfos(xs) + k, n, []);
            && (r.Some? ==> r.value.0 != Arrivals(xs))
            && (AllReadable(xs[..n]) ==> r == Some((Arrivals(xs[..n]), EncInfos(xs[n..]) + k)))
  {
    hide InfoArrival, AllReadable, InfoRepresentable, InfoWritable, InfoInRange, CountAgrees, EncInfo, DecOne;
    var (a, b) := (xs[..n], xs[n..]);
    assert a + b == xs;
    EncInfosConcat(a, b);
    assert EncInfos(xs) + k == EncInfos(a) + (EncInfos(b) + k);
    InfosRoundTrip(m, a, EncInfos(b) + k, []);
    assert [] + Arrivals(a) == Arrivals(a);
    DecInfosExtends(m, EncInfos(xs) + k, n, []);
    ArrivalsLength(xs);
  }

  lemma ReloadSplits(m: Misread, xs: seq<JsInfo>, want: Want)
    ensures var n := ToInt32(|xs|);
            var r := DecInfos(m, EncInfos(xs) + [Int32(1), WantBody(want)], n, []);
            if n < 0 || n > MAX_ALLOW_SIZE || r == None || TakeWant(m, r.value.1).0 == None then
              DecReload(m, EncReload(xs, want)) == None
            else
              DecReload(m, EncReload(xs, want)) == Some((r.value.0, TakeWant(m, r.value.1).0.value))
  {
    hide EncInfos, DecInfos, ToInt32, TakeWant;
    var ts := EncReload(xs, want);
    assert ts[1..] == EncInfos(xs) + [Int32(1), WantBody(want)];
  }

  /** Infos without a Want behind them are not delivered. */
  lemma NoWantNoDelivery(m: Misread, xs: seq<JsInfo>, k: seq<Token>)
    requires AllSendable(xs) && AllReadable(xs) && |xs| <= MAX_ALLOW_SIZE
    requires k == [] || k[0] == Int32(0)
    ensures DecReload(m, EncVector(xs) + k) == None
  {
    hide EncInfos, DecInfos, AllReadable, AllSendable;
    var ts := EncVector(xs) + k;
    assert ts[0] == Int32(|xs|) && ts[1..] == EncInfos(xs) + k;
    InfosRoundTrip(m, xs, k, []);
  }

  lemma WantRoundTrip(m: Misread, want: Want)
    ensures TakeWant(m, [Int32(1), WantBody(want)]).0 == Some(want)
  {
  }

  /** ReloadForm delivers what was sent, whole, in order and with its Want, if there are at most
      8192 infos and all are readable; otherwise, within the range of the wire's fields, it
      delivers nothing. */
  lemma ReloadRoundTrip(m: Misread, xs: seq<JsInfo>, want: Want)
    requires AllSendable(xs)
    ensures var r := DecReload(m, EncReload(xs, want));
            if |xs| <= MAX_ALLOW_SIZE && AllReadable(xs) then
              && r == Some((Arrivals(xs), want)) && |r.value.0| == |xs|
              && forall i :: 0 <= i < |xs| ==> r.value.0[i] == InfoArrival(xs[i])
            else
              && (AllCounted(xs) && r.Some? ==> r.value.0 != Arrivals(xs))
              && (AllInRange(xs) && |xs| <= INT32_MAX ==> r == None)
  {
    ArrivalsLength(xs);
    hide EncInfos, DecInfos, DecReload, EncReload, TakeWant, Arrivals, ToInt32;
    hide AllReadable, AllSendable, AllInRange, AllCounted;
    var tail := [Int32(1), WantBody(want)];
    var n := ToInt32(|xs|);
    ReloadSplits(m, xs, want);
    InfosRoundTrip(m, xs, tail, []);
    assert [] + Arrivals(xs) == Arrivals(xs);
    WantRoundTrip(m, want);
    if |xs| > MAX_ALLOW_SIZE && 0 <= n <= MAX_ALLOW_SIZE {
      WrappedListIsCut(m, xs, n, tail);
    }
  }

  /** Every receiver is given what was sent exactly under that condition, for lists of any length
      and with objects of any size. */
  lemma ReloadArrivesExactlyWhen(xs: seq<JsInfo>, want: Want)
    requires AllSendable(xs)
    ensures (forall m: Misread :: DecReload(m, EncReload(xs, want)) == Some((Arrivals(xs), want)))
       <==> |xs| <= MAX_ALLOW_SIZE && AllReadable(xs)
  {
    hide EncInfos, DecInfos, DecReload, EncReload, TakeWant, Arrivals, ToInt32, AllReadable, AllSendable;
    forall m: Misread
      ensures |xs| <= MAX_ALLOW_SIZE && AllReadable(xs) ==>
        DecReload(m, EncReload(xs, want)) == Some((Arrivals(xs), want))
    {
      ReloadRoundTrip(m, xs, want);
    }
    if !(|xs| <= MAX_ALLOW_SIZE && AllReadable(xs)) {
      DeadEndReload(xs, want);
    }
  }

  lemma DeadEndReload(xs: seq<JsInfo>, want: Want)
    requires AllSendable(xs) && !(|xs| <= MAX_ALLOW_SIZE && AllReadable(xs))
    ensures DecReload(DEAD_END, EncReload(xs, want)) != Some((Arrivals(xs), want))
  {
    hide EncInfos, DecInfos, DecReload, EncReload, TakeWant, Arrivals, ToInt32, AllReadable, AllSendable;
    var tail := [Int32(1), WantBody(want)];
    var n := ToInt32(|xs|);
    ReloadSplits(DEAD_END, xs, want);
    if |xs| > MAX_ALLOW_SIZE && 0 <= n <= MAX_ALLOW_SIZE {
      WrappedListIsCut(DEAD_END, xs, n, tail);
    } else if |xs| <= MAX_ALLOW_SIZE {
      DeadEndInfos(xs, tail, []);
      assert [] + Arrivals(xs) == Arrivals(xs);
      var r := DecInfos(DEAD_END, EncInfos(xs) + tail, n, []);
      if r.Some? && InPieces(r.value.1) { NothingInPieces(r.value.1); }
    }
  }
}
