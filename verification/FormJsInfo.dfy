/** FormJsInfo as an object, and the ReloadForm message that carries a vector of them. */
module FormJsInfoModel {
  import opened SortedMaps
  import opened JsonValues
  import opened Ipc
  import opened SharedMemory
  import opened ProviderCodec
  import opened LostWrites
  import opened LostInfoWrites
  import opened FormProviderDataModel
  import opened JsInfoCodec

  /** Writes fields one after the other and stops at the first write that fails. */
  method WriteFields(parcel: Parcel, fields: seq<Token>) returns (ok: bool)
    requires parcel.Valid() && forall t :: t in fields ==> Plain(t)
    modifies parcel`tokens, parcel.kernel`faulted
    ensures parcel.KeptByWrite()
    ensures ok ==> parcel.Content() == old(parcel.Content()) + fields
    ensures !parcel.kernel.faulted ==> ok
  {
    for i := 0 to |fields|
      invariant parcel.KeptByWrite()
      invariant parcel.Content() == old(parcel.Content()) + fields[..i]
    {
      assert fields[i] in fields;
      ok := parcel.Write(fields[i]);
      if !ok {
        return false;
      }
      assert fields[..i] + [fields[i]] == fields[..i + 1];
    }
    return true;
  }

  const NO_WRITES := DataWrites(true, true, true, [])

  lemma InfoAssembled(before: seq<Token>, x: JsInfo, w: InfoWrites)
    requires Describes(w.provider, x.provider)
    ensures before + WireInfo(x, w)
         == (((before + EncIdentity(x.identity)) + WireText(x.formData, w.formData)) + EncDetails(x.details))
            + WireTail(x, w)
  {
    hide EncIdentity, WireText, EncDetails, WireTail;
  }

  lemma TailAssembled(before: seq<Token>, x: JsInfo, w: InfoWrites)
    requires Describes(w.provider, x.provider)
    ensures before + WireTail(x, w)
         == (((before + [Int32(1)]) + WireData(x.provider, w.provider)) + EncOuterImages(x.provider))
            + (Landed(w.keys, Strings(Keys(x.modulePkgNameMap))) + Landed(w.values, Strings(Vals(x.modulePkgNameMap))))
  {
    hide WireData, EncOuterImages, Landed, Keys, Vals;
  }

  /** The bytes a name stands for: the raw image's, else the shared one's, else the outer entry. */
  function Meant(raw: Option<string>, shared: Option<SharedImage>, outer: Option<string>): Option<string>
  {
    if raw.Some? then raw else if shared.Some? then Some(shared.value.content) else outer
  }

  lemma {:induction false} LookupContents(es: seq<Entry<SharedImage>>, k: string)
    ensures Lookup(Contents(es), k) == Meant(None, Lookup(es, k), None)
  {
    if es == [] {
    } else {
      assert Contents(es)[1..] == Contents(es[1..]);
      LookupContents(es[1..], k);
    }
  }

  lemma ImagesByName(outer: seq<Entry<string>>, shared: seq<Entry<SharedImage>>, raw: seq<Entry<string>>,
      all: seq<Entry<SharedImage>>)
    requires Sorted(outer) && Sorted(all)
    requires forall k, bytes :: Lookup(raw, k) == Some(bytes) ==> Lookup(all, k) == Some(SharedImage(bytes, |bytes|))
    requires forall k :: Lookup(raw, k) == None ==> Lookup(all, k) == Lookup(shared, k)
    ensures var now := PutAll(outer, Contents(all));
            forall k :: Lookup(now, k) == Meant(Lookup(raw, k), Lookup(shared, k), Lookup(outer, k))
  {
    hide Lookup, PutAll, Contents;
    var now := PutAll(outer, Contents(all));
    forall k ensures Lookup(now, k) == Meant(Lookup(raw, k), Lookup(shared, k), Lookup(outer, k)) {
      ContentsSorted(all);
      PutAllLookup(outer, Contents(all), k);
      LookupContents(all, k);
      assert Lookup(raw, k).Some? ==> Lookup(raw, k) == Some(Lookup(raw, k).value);
    }
  }

  lemma NoSharedYet(before: seq<Token>)
    ensures before == before + EncSharedAll([])
  {
  }

  lemma SharedMore(before: seq<Token>, es: seq<Entry<SharedImage>>, e: Entry<SharedImage>)
    ensures (before + EncSharedAll(es)) + EncShared(e) == before + EncSharedAll(es + [e])
  {
    EncSharedAppend(es, e);
  }

  lemma NoInfoYet(before: seq<Token>)
    ensures before == before + EncInfos([])
  {
  }

  lemma InfoMore(before: seq<Token>, xs: seq<JsInfo>, x: JsInfo)
    ensures (before + EncInfos(xs)) + ([Int32(1)] + EncInfo(x)) == before + EncInfos(xs + [x])
  {
    hide EncInfo;
    EncInfosAppend(xs, x);
  }

  class FormJsInfo {
    var identity: Identity
    var formData: string
    var details: Details
    const formProviderData: FormProviderData
    var imageDataMap: seq<Entry<string>>
    var modulePkgNameMap: seq<Entry<string>>

    ghost predicate Valid()
      reads this, formProviderData
    {
      formProviderData.Valid() && Sorted(imageDataMap) && Sorted(modulePkgNameMap)
    }

    function Value(): JsInfo
      reads this, formProviderData
    {
      JsInfo(identity, formData, details, formProviderData.Value(), imageDataMap, modulePkgNameMap)
    }

    constructor ()
      ensures Valid() && fresh(formProviderData) && Value() == FRESH_INFO
    {
      identity := FRESH_INFO.identity;
      formData := "";
      details := FRESH_INFO.details;
      formProviderData := new FormProviderData();
      imageDataMap := [];
      modulePkgNameMap := [];
    }

    // ---- writing ----

    /** The write of the length is not checked; `length` says whether it landed. */
    method WriteFormData(parcel: Parcel) returns (ok: bool, ghost length: bool)
      requires parcel.Valid()
      modifies parcel`tokens, parcel.kernel
      ensures parcel.KeptByWrite()
      ensures !parcel.kernel.faulted ==> (ok <==> ToInt32(|formData|) <= MAX_FORM_DATA_BUFFER_SIZE)
      ensures ok ==> parcel.Content() == old(parcel.Content()) + WireText(formData, length)
      ensures ok && !length ==> parcel.kernel.faulted
    {
      hide Parcel.Loose;
      var formDataLength := ToInt32(|formData|);
      var landed := parcel.Write(Int32(formDataLength));
      length := landed;
      if formDataLength > BIG_DATA {
        ok := WriteAshmemFormData(parcel, formDataLength, formData);
      } else {
        ok := parcel.Write(Utf16(formData));
      }
    }

    method WriteIdentity(parcel: Parcel) returns (ok: bool)
      requires parcel.Valid()
      modifies parcel`tokens, parcel.kernel`faulted
      ensures parcel.KeptByWrite()
      ensures ok ==> parcel.Content() == old(parcel.Content()) + EncIdentity(identity)
      ensures !parcel.kernel.faulted ==> ok
    {
      var f := identity;
      ok := WriteFields(parcel, [
        Int64(f.formId), Utf16(f.formName), Utf16(f.bundleName), Utf16(f.abilityName), Utf16(f.moduleName),
        Boolean(f.formTempFlag), Utf16(f.jsFormCodePath)]);
    }

    method WriteDetails(parcel: Parcel) returns (ok: bool)
      requires parcel.Valid()
      modifies parcel`tokens, parcel.kernel`faulted
      ensures parcel.KeptByWrite()
      ensures ok ==> parcel.Content() == old(parcel.Content()) + EncDetails(details)
      ensures !parcel.kernel.faulted ==> ok
    {
      var d := details;
      ok := WriteFields(parcel, [
        Utf16(d.formSrc), Int32(d.designWidth), Boolean(d.autoDesignWidth),
        Uint32(d.versionCode), Utf16(d.versionName), Uint32(d.compatibleVersion),
        Int32(d.formType), Int32(d.uiSyntax), Boolean(d.isDynamic), Boolean(d.transparencyEnabled),
        Utf16(d.templateFormImperativeFwk)]);
    }

    /** `w` says which of the writes that are not checked landed. */
    method Marshalling(parcel: Parcel) returns (ok: bool, ghost w: InfoWrites)
      requires Valid() && parcel.Valid()
      modifies parcel`tokens, parcel.kernel
      ensures parcel.KeptByWrite() && parcel.NothingLeaked()
      ensures !parcel.kernel.faulted ==> (ok <==> InfoWritable(Value()))
      ensures ok ==> Describes(w.provider, Value().provider)
      ensures ok ==> parcel.Content() == old(parcel.Content()) + WireInfo(Value(), w)
      ensures ok ==> (parcel.Content() == old(parcel.Content()) + EncInfo(Value()) <==> InfoAllLanded(Value(), w))
      ensures ok && !parcel.kernel.faulted ==> InfoAllLanded(Value(), w)
    {
      hide EncIdentity, WireText, EncDetails, EncInfo, WireTail, AllLanded, Describes, ToInt32;
      hide Parcel.Content, Parcel.Loose, FormProviderData.Value, Parcel.NothingLeaked;
      ghost var before := parcel.Content();
      w := InfoWrites(true, NO_WRITES, true, true);
      ok := WriteIdentity(parcel);
      if !ok {
        parcel.KeptLeaksNothing();
        return;
      }
      ghost var length;
      ok, length := WriteFormData(parcel);
      if !ok {
        parcel.KeptLeaksNothing();
        return;
      }
      ok := WriteDetails(parcel);
      if !ok {
        parcel.KeptLeaksNothing();
        return;
      }
      ok, w := WriteObjects(parcel, length);
      parcel.KeptLeaksNothing();
      if ok {
        InfoAssembled(before, Value(), w);
        WireInfoWhole(Value(), w);
        SameAppended(before, WireInfo(Value(), w), EncInfo(Value()));
      }
    }

    method WriteObjects(parcel: Parcel, ghost length: bool) returns (ok: bool, ghost w: InfoWrites)
      requires Valid() && parcel.Valid()
      modifies parcel`tokens, parcel.kernel
      ensures parcel.KeptByWrite()
      ensures !parcel.kernel.faulted ==> ok
      ensures ok ==> Describes(w.provider, Value().provider) && w.formData == length
      ensures ok ==> parcel.Content() == old(parcel.Content()) + WireTail(Value(), w)
      ensures ok && length && !parcel.kernel.faulted ==> InfoAllLanded(Value(), w)
    {
      hide WireTail, WireData, AllLanded, Describes, EncOuterImages, Landed, Parcel.Content, Parcel.Loose;
      hide WireText, Dump, EncData, WithoutState, OnlyStateLost, Parcel.NothingLeaked;
      ghost var before := parcel.Content();
      w := InfoWrites(true, NO_WRITES, true, true);
      ok := WriteFlag(parcel);
      if !ok {
        return;
      }
      ghost var provider;
      ok, provider := formProviderData.Marshalling(parcel);
      if !ok {
        return;
      }
      ok := WriteImageData(parcel);
      if !ok {
        return;
      }
      ghost var keys, values := WritePkgNameMap(parcel);
      w := InfoWrites(length, provider, keys, values);
      TailAssembled(before, Value(), w);
    }

    /** WriteParcelable of an object that is there: its presence flag. */
    method WriteFlag(parcel: Parcel) returns (ok: bool)
      requires parcel.Valid()
      modifies parcel`tokens, parcel.kernel`faulted
      ensures parcel.KeptByWrite()
      ensures ok ==> parcel.Content() == old(parcel.Content()) + [Int32(1)]
      ensures !parcel.kernel.faulted ==> ok
    {
      ok := parcel.Write(Int32(1));
    }

    method WriteImageData(parcel: Parcel) returns (ok: bool)
      requires parcel.Valid()
      modifies parcel`tokens, parcel.kernel`faulted
      ensures parcel.KeptByWrite()
      ensures ok ==> parcel.Content() == old(parcel.Content()) + EncOuterImages(formProviderData.Value())
      ensures !parcel.kernel.faulted ==> ok
    {
      hide EncSharedAll, Parcel.Content, Parcel.Loose, ToInt32;
      var imageDataState := formProviderData.imageDataState;
      ok := parcel.Write(Int32(imageDataState));
      if !ok || imageDataState != IMAGE_DATA_STATE_ADDED {
        return ok;
      }
      var sharedImageMap := formProviderData.imageDataMap;
      var size := |sharedImageMap|;
      ok := parcel.Write(Int32(ToInt32(size)));
      if !ok || size > IMAGE_DATA_THRESHOLD {
        return ok;
      }
      ok := WriteSharedImages(parcel, sharedImageMap);
    }

    /** The loop over the entries. */
    static method WriteSharedImages(parcel: Parcel, sharedImageMap: seq<Entry<SharedImage>>) returns (ok: bool)
      requires parcel.Valid()
      modifies parcel`tokens, parcel.kernel`faulted
      ensures parcel.KeptByWrite()
      ensures ok ==> parcel.Content() == old(parcel.Content()) + EncSharedAll(sharedImageMap)
      ensures !parcel.kernel.faulted ==> ok
    {
      hide EncSharedAll, Parcel.Content, Parcel.Loose;
      ghost var before := parcel.Content();
      NoSharedYet(before);
      for i := 0 to |sharedImageMap|
        invariant parcel.KeptByWrite()
        invariant parcel.Content() == before + EncSharedAll(sharedImageMap[..i])
      {
        var e := sharedImageMap[i];
        ok := WriteFields(parcel, [Int32(1), Ashmem(e.val.content), Utf16(e.key)]);
        if !ok {
          return false;
        }
        SharedMore(before, sharedImageMap[..i], e);
        assert sharedImageMap[..i] + [e] == sharedImageMap[..i + 1];
      }
      assert sharedImageMap[..|sharedImageMap|] == sharedImageMap;
      return true;
    }

    /** Neither vector's write is checked. */
    method WritePkgNameMap(parcel: Parcel) returns (ghost keysLanded: bool, ghost valuesLanded: bool)
      requires parcel.Valid()
      modifies parcel`tokens, parcel.kernel`faulted
      ensures parcel.KeptByWrite()
      ensures parcel.Content() == old(parcel.Content())
        + (Landed(keysLanded, Strings(Keys(modulePkgNameMap))) + Landed(valuesLanded, Strings(Vals(modulePkgNameMap))))
      ensures !parcel.kernel.faulted ==> keysLanded && valuesLanded
    {
      hide Landed, Parcel.Loose;
      var keys, values := [], [];
      for i := 0 to |modulePkgNameMap|
        invariant keys == Keys(modulePkgNameMap)[..i] && values == Vals(modulePkgNameMap)[..i]
      {
        keys := keys + [modulePkgNameMap[i].key];
        values := values + [modulePkgNameMap[i].val];
      }
      assert keys == Keys(modulePkgNameMap) && values == Vals(modulePkgNameMap);
      var first := parcel.Write(Strings(keys));
      var second := parcel.Write(Strings(values));
      keysLanded, valuesLanded := first, second;
    }

    // ---- reading ----

    static method ReadIdentity(parcel: Parcel) returns (f: Identity)
      requires parcel.Valid()
      modifies parcel`cursor, parcel`torn
      ensures parcel.KeptByRead() && (f, parcel.Rest()) == DecIdentity(parcel.misread, old(parcel.Rest()))
    {
      hide Parcel.Rest, Parcel.Content, TakeUtf16, TakeBool, TakeInt64;
      var formId := parcel.ReadInt64();
      var formName := parcel.ReadString16();
      var bundleName := parcel.ReadString16();
      var abilityName := parcel.ReadString16();
      var moduleName := parcel.ReadString16();
      var formTempFlag := parcel.ReadBool();
      var jsFormCodePath := parcel.ReadString16();
      f := Identity(formId, formName, bundleName, abilityName, moduleName, formTempFlag, jsFormCodePath);
    }

    static method ReadDetails(parcel: Parcel) returns (d: Details)
      requires parcel.Valid()
      modifies parcel`cursor, parcel`torn
      ensures parcel.KeptByRead() && (d, parcel.Rest()) == DecDetails(parcel.misread, old(parcel.Rest()))
    {
      hide Parcel.Rest, Parcel.Content, TakeUtf16, TakeBool, TakeInt32, TakeUint32;
      var formSrc := parcel.ReadString16();
      var designWidth := parcel.ReadInt32();
      var autoDesignWidth := parcel.ReadBool();
      var versionCode := parcel.ReadUint32();
      var versionName := parcel.ReadString16();
      var compatibleVersion := parcel.ReadUint32();
      var formType := parcel.ReadInt32();
      var uiSyntax := parcel.ReadInt32();
      var isDynamic := parcel.ReadBool();
      var transparencyEnabled := parcel.ReadBool();
      var templateFormImperativeFwk := parcel.ReadString16();
      d := Details(formSrc, designWidth, autoDesignWidth, versionCode, versionName, compatibleVersion,
                   formType, uiSyntax, isDynamic, transparencyEnabled, templateFormImperativeFwk);
    }

    method ReadFromParcel(parcel: Parcel) returns (ok: bool)
      requires Valid() && parcel.Valid()
      modifies this, formProviderData, parcel`cursor, parcel`torn, parcel.kernel
      ensures parcel.KeptByRead()
      ensures ok ==> Valid()
      ensures ok ==> DecInfo(parcel.misread, old(parcel.Rest()), old(Value())) == Some((Value(), parcel.Rest()))
      ensures !parcel.kernel.faulted ==> (ok <==> DecInfo(parcel.misread, old(parcel.Rest()), old(Value())).Some?)
    {
      hide DecIdentity, DecDetails, DecTail, Parcel.Rest, Parcel.Content, Parcel.Loose, Sorted;
      identity := ReadIdentity(parcel);
      var text;
      ok, text := ReadFormData(parcel);
      if !ok {
        return false;
      }
      formData := text;
      details := ReadDetails(parcel);
      ok := ReadObjects(parcel);
    }

    method ReadFormData(parcel: Parcel) returns (ok: bool, text: string)
      requires parcel.Valid()
      modifies parcel`cursor, parcel`torn, parcel.kernel
      ensures parcel.KeptByRead()
      ensures ok ==>
        DecText(parcel.misread, old(parcel.Rest()), MAX_FORM_DATA_BUFFER_SIZE) == Some((text, parcel.Rest()))
      ensures !parcel.kernel.faulted ==>
        (ok <==> DecText(parcel.misread, old(parcel.Rest()), MAX_FORM_DATA_BUFFER_SIZE).Some?)
    {
      hide Parcel.Rest, Parcel.Content;
      var formDataLength := parcel.ReadInt32();
      if formDataLength > BIG_DATA {
        ok, text := ReadAshmemFormData(parcel, formDataLength);
      } else {
        text := parcel.ReadString16();
        ok := true;
      }
    }

    /** The provider data, the images and the package names. */
    method ReadObjects(parcel: Parcel) returns (ok: bool)
      requires Valid() && parcel.Valid()
      modifies this`imageDataMap, this`modulePkgNameMap, formProviderData, parcel`cursor, parcel`torn, parcel.kernel
      ensures parcel.KeptByRead()
      ensures ok ==> Valid()
      ensures ok ==> DecTail(parcel.misread, old(parcel.Rest()), old(Value())) == Some((Value(), parcel.Rest()))
      ensures !parcel.kernel.faulted ==> (ok <==> DecTail(parcel.misread, old(parcel.Rest()), old(Value())).Some?)
    {
      hide DecOuterImages, DecPkgNames, DecData, Parcel.Rest, Parcel.Content, Parcel.Loose, Sorted;
      var flag := parcel.ReadInt32();
      if flag == 0 {
        return false;
      }
      var bindingData := FormProviderData.Unmarshalling(parcel);
      if bindingData == null {
        return false;
      }
      formProviderData.Assign(bindingData);
      ReadImageData(parcel);
      ReadPkgNameMap(parcel);
      return true;
    }

    method ReadImageData(parcel: Parcel)
      requires parcel.Valid() && Sorted(imageDataMap)
      modifies this`imageDataMap, parcel`cursor, parcel`torn
      ensures parcel.KeptByRead() && Sorted(imageDataMap)
      ensures (imageDataMap, parcel.Rest()) == DecOuterImages(parcel.misread, old(parcel.Rest()), old(imageDataMap))
    {
      hide Parcel.Rest, Parcel.Content, Parcel.Loose, TakeNamedAshmem, Sorted, Put;
      var imageDataState := parcel.ReadInt32();
      if imageDataState != IMAGE_DATA_STATE_ADDED {
        return;
      }
      var size := parcel.ReadInt32();
      if size > IMAGE_DATA_THRESHOLD {
        return;
      }
      ghost var start := parcel.Rest();
      var i := 0;
      while i < size
        invariant parcel.KeptByRead() && Sorted(imageDataMap)
        invariant 0 <= i && (i <= size || i == 0)
        invariant DecShared(parcel.misread, parcel.Rest(), size - i, imageDataMap)
               == DecShared(parcel.misread, start, size, old(imageDataMap))
        decreases size - i
      {
        var image := ReadNamedAshmem(parcel);
        if image.None? {
          return;
        }
        PutSorted(imageDataMap, image.value.key, image.value.val);
        imageDataMap := Put(imageDataMap, image.value.key, image.value.val);
        i := i + 1;
      }
    }

    static method ReadNamedAshmem(parcel: Parcel) returns (image: Option<Entry<string>>)
      requires parcel.Valid()
      modifies parcel`cursor, parcel`torn
      ensures parcel.KeptByRead() && (image, parcel.Rest()) == TakeNamedAshmem(parcel.misread, old(parcel.Rest()))
    {
      hide Parcel.Rest, Parcel.Content;
      var formAshmem := parcel.ReadFormAshmem();
      if formAshmem.None? {
        return None;
      }
      var picName := parcel.ReadString16();
      image := Some(Entry(picName, formAshmem.value));
    }

    method ReadPkgNameMap(parcel: Parcel)
      requires parcel.Valid() && Sorted(modulePkgNameMap)
      modifies this`modulePkgNameMap, parcel`cursor, parcel`torn
      ensures parcel.KeptByRead() && Sorted(modulePkgNameMap)
      ensures (modulePkgNameMap, parcel.Rest())
           == DecPkgNames(parcel.misread, old(parcel.Rest()), old(modulePkgNameMap))
    {
      hide Parcel.Rest, Parcel.Content, Parcel.Loose;
      var keys := parcel.ReadStringVector();
      if keys.None? {
        return;
      }
      var values := parcel.ReadStringVector();
      if values.None? || |keys.value| != |values.value| {
        return;
      }
      var (ks, vs) := (keys.value, values.value);
      assert ks[0..] == ks && vs[0..] == vs;
      for index := 0 to |ks|
        modifies this`modulePkgNameMap
        invariant Sorted(modulePkgNameMap)
        invariant EmplaceAll(modulePkgNameMap, ks[index..], vs[index..]) == EmplaceAll(old(modulePkgNameMap), ks, vs)
      {
        PutSorted(modulePkgNameMap, ks[index], vs[index]);
        modulePkgNameMap := Emplace(modulePkgNameMap, ks[index], vs[index]);
        assert ks[index..][1..] == ks[index + 1..] && vs[index..][1..] == vs[index + 1..];
      }
      assert EmplaceAll(modulePkgNameMap, ks[|ks|..], vs[|ks|..]) == modulePkgNameMap;
    }

    /** Unmarshalling; null when the parcel does not hold a readable object. */
    static method Unmarshalling(parcel: Parcel) returns (r: FormJsInfo?)
      requires parcel.Valid()
      modifies parcel`cursor, parcel`torn, parcel.kernel
      ensures parcel.KeptByRead()
      ensures r != null ==> fresh(r) && r.Valid()
      ensures r != null ==> DecInfo(parcel.misread, old(parcel.Rest()), FRESH_INFO) == Some((r.Value(), parcel.Rest()))
      ensures !parcel.kernel.faulted ==> (r != null <==> DecInfo(parcel.misread, old(parcel.Rest()), FRESH_INFO).Some?)
    {
      var formJsInfo := new FormJsInfo();
      var ok := formJsInfo.ReadFromParcel(parcel);
      r := if ok then formJsInfo else null;
    }

    /** After a successful conversion every image is in the outer map too, unless there are more
        than 128 of them. */
    method ConvertRawImageData(kernel: Kernel) returns (ok: bool)
      requires Valid()
      modifies this`imageDataMap, formProviderData, kernel
      ensures Valid() && (old(kernel.faulted) ==> kernel.faulted)
      ensures kernel.open == old(kernel.open) && kernel.mapped == old(kernel.mapped)
      ensures AllImages(formProviderData.Value()) == AllImages(old(formProviderData.Value()))
      ensures ok ==> formProviderData.rawImageBytesMap == [] && |formProviderData.imageDataMap| <= IMAGE_DATA_THRESHOLD
      ensures ok ==> imageDataMap == PutAll(old(imageDataMap), Contents(AllImages(old(formProviderData.Value()))))
      ensures
        var (raw, shared) := (old(formProviderData.rawImageBytesMap), old(formProviderData.imageDataMap));
        ok ==> forall k ::
          Lookup(imageDataMap, k) == Meant(Lookup(raw, k), Lookup(shared, k), Lookup(old(imageDataMap), k))
      ensures !ok ==> imageDataMap == old(imageDataMap)
      ensures !kernel.faulted ==> (ok <==> |AllImages(old(formProviderData.Value()))| <= IMAGE_DATA_THRESHOLD)
      ensures !kernel.faulted ==> (ok <==> |formProviderData.imageDataMap| <= 128)
    {
      hide AllImages;
      ok := formProviderData.ConvertRawImageData(kernel);
      if !ok {
        return false;
      }
      var sharedImageMap := formProviderData.imageDataMap;
      if |sharedImageMap| > IMAGE_DATA_THRESHOLD {
        return false;
      }
      CopyImages(sharedImageMap);
      ghost var d := old(formProviderData.Value());
      ImagesByName(old(imageDataMap), d.shared, d.raw, sharedImageMap);
      return true;
    }

    method CopyImages(sharedImageMap: seq<Entry<SharedImage>>)
      requires Sorted(imageDataMap)
      modifies this`imageDataMap
      ensures Sorted(imageDataMap) && imageDataMap == PutAll(old(imageDataMap), Contents(sharedImageMap))
    {
      hide Put, Sorted;
      ghost var es := Contents(sharedImageMap);
      for i := 0 to |sharedImageMap|
        invariant Sorted(imageDataMap) && imageDataMap == PutAll(old(imageDataMap), es[..i])
      {
        PutSorted(imageDataMap, sharedImageMap[i].key, sharedImageMap[i].val.content);
        PutAllPrefix(old(imageDataMap), es[..i + 1], i);
        assert es[..i + 1][..i] == es[..i] && es[..i + 1][i..] == [es[i]];
        imageDataMap := Put(imageDataMap, sharedImageMap[i].key, sharedImageMap[i].val.content);
      }
      assert es[..|sharedImageMap|] == es;
    }
  }

  // ---- ReloadForm ----

  function Values(infos: seq<FormJsInfo>): (r: seq<JsInfo>)
    reads infos, set i | i in infos :: i.formProviderData
    ensures |r| == |infos|
    ensures forall i :: 0 <= i < |infos| ==> r[i] == infos[i].Value()
  {
    if infos == [] then [] else [infos[0].Value()] + Values(infos[1..])
  }

  ghost predicate AllValid(infos: seq<FormJsInfo>)
    reads infos, set i | i in infos :: i.formProviderData
  {
    forall i :: 0 <= i < |infos| ==> infos[i].Valid()
  }

  predicate AllWritable(xs: seq<JsInfo>) { forall i :: 0 <= i < |xs| ==> InfoWritable(xs[i]) }

  datatype ReloadResult = Delivered(infos: seq<JsInfo>, want: Want) | ParcelError

  method WriteParcelableVector(infos: seq<FormJsInfo>, parcel: Parcel) returns (ok: bool)
    requires AllValid(infos) && parcel.Valid()
    modifies parcel`tokens, parcel.kernel
    ensures parcel.KeptByWrite()
    ensures !parcel.kernel.faulted ==> (ok <==> AllWritable(Values(infos)))
    ensures !parcel.kernel.faulted && ok ==> parcel.Content() == old(parcel.Content()) + EncVector(Values(infos))
  {
    hide Parcel.Content, Parcel.Loose, EncInfos, AllWritable, ToInt32, Values;
    ok := parcel.Write(Int32(ToInt32(|infos|)));
    if ok {
      ok := WriteInfos(infos, parcel);
    }
  }

  /** The loop over the elements, left at the first one that cannot be written. */
  method WriteInfos(infos: seq<FormJsInfo>, parcel: Parcel) returns (ok: bool)
    requires AllValid(infos) && parcel.Valid()
    modifies parcel`tokens, parcel.kernel
    ensures parcel.KeptByWrite()
    ensures !parcel.kernel.faulted ==> (ok <==> AllWritable(Values(infos)))
    ensures !parcel.kernel.faulted && ok ==> parcel.Content() == old(parcel.Content()) + EncInfos(Values(infos))
  {
    hide Parcel.Content, Parcel.Loose, EncInfo, InfoWritable, FormJsInfo.Value, EncInfos, Values;
    ghost var vs := Values(infos);
    ghost var before := parcel.Content();
    NoInfoYet(before);
    for i := 0 to |infos|
      invariant parcel.KeptByWrite() && Values(infos) == vs
      invariant !parcel.kernel.faulted ==> forall j :: 0 <= j < i ==> InfoWritable(vs[j])
      invariant !parcel.kernel.faulted ==> parcel.Content() == before + EncInfos(vs[..i])
    {
      ok := WriteInfo(infos[i], parcel);
      if !ok {
        return false;
      }
      InfoMore(before, vs[..i], vs[i]);
      assert vs[..i] + [vs[i]] == vs[..i + 1];
    }
    assert vs[..|infos|] == vs;
    return true;
  }

  /** WriteParcelable: a presence flag, then the object. */
  method WriteInfo(info: FormJsInfo, parcel: Parcel) returns (ok: bool)
    requires info.Valid() && parcel.Valid()
    modifies parcel`tokens, parcel.kernel
    ensures parcel.KeptByWrite()
    ensures !parcel.kernel.faulted ==> (ok <==> InfoWritable(info.Value()))
    ensures !parcel.kernel.faulted && ok ==>
      parcel.Content() == old(parcel.Content()) + ([Int32(1)] + EncInfo(info.Value()))
  {
    hide EncInfo, InfoWritable, Parcel.Content, Parcel.Loose;
    ok := info.WriteFlag(parcel);
    if ok {
      ghost var w;
      ok, w := info.Marshalling(parcel);
    }
  }

  /** FormRenderProxy::ReloadForm up to the point where the parcel is sent. */
  method ReloadForm(infos: seq<FormJsInfo>, want: Want, data: Parcel) returns (ok: bool)
    requires AllValid(infos) && data.Valid()
    modifies data`tokens, data.kernel
    ensures data.KeptByWrite()
    ensures !data.kernel.faulted ==> (ok <==> AllWritable(Values(infos)))
    ensures !data.kernel.faulted && ok ==> data.Content() == old(data.Content()) + EncReload(Values(infos), want)
  {
    hide EncVector, AllWritable, Values, Parcel.Loose;
    ok := WriteParcelableVector(infos, data);
    if !ok {
      return false;
    }
    ok := WriteFields(data, [Int32(1), WantBody(want)]);
  }

  method GetParcelableInfos(parcel: Parcel) returns (ok: bool, infos: seq<JsInfo>)
    requires parcel.Valid()
    modifies parcel`cursor, parcel`torn, parcel.kernel
    ensures parcel.KeptByRead()
    ensures ok ==> DecVector(parcel.misread, old(parcel.Rest())) == Some((infos, parcel.Rest()))
    ensures !parcel.kernel.faulted ==> (ok <==> DecVector(parcel.misread, old(parcel.Rest())).Some?)
    ensures var n := TakeInt32(parcel.misread, old(parcel.Rest())).0;
            ok ==> 0 <= n == |infos| <= 8192
  {
    hide Parcel.Rest, Parcel.Content, Parcel.Loose, DecOne, TakeInt32;
    infos := [];
    var infoSize := parcel.ReadInt32();
    if infoSize < 0 || infoSize > MAX_ALLOW_SIZE {
      return false, infos;
    }
    ghost var start := parcel.Rest();
    for i := 0 to infoSize
      invariant parcel.KeptByRead() && |infos| == i
      invariant DecInfos(parcel.misread, parcel.Rest(), infoSize - i, infos)
             == DecInfos(parcel.misread, start, infoSize, [])
    {
      var info := ReadInfo(parcel);
      if info.None? {
        return false, infos;
      }
      infos := infos + [info.value];
    }
    return true, infos;
  }

  /** ReadParcelable<FormJsInfo>, copied into the result vector by value. */
  method ReadInfo(parcel: Parcel) returns (info: Option<JsInfo>)
    requires parcel.Valid()
    modifies parcel`cursor, parcel`torn, parcel.kernel
    ensures parcel.KeptByRead()
    ensures info.Some? ==> DecOne(parcel.misread, old(parcel.Rest())) == Some((info.value, parcel.Rest()))
    ensures !parcel.kernel.faulted ==> (info.Some? <==> DecOne(parcel.misread, old(parcel.Rest())).Some?)
  {
    hide DecInfo, Parcel.Rest, Parcel.Content;
    var flag := parcel.ReadInt32();
    if flag == 0 {
      return None;
    }
    var r := FormJsInfo.Unmarshalling(parcel);
    info := if r == null then None else Some(r.Value());
  }

  /** FormRenderStub::HandleReloadForm up to the call it makes with what it has read. */
  method HandleReloadForm(data: Parcel) returns (r: ReloadResult)
    requires data.Valid()
    modifies data`cursor, data`torn, data.kernel
    ensures data.KeptByRead()
    ensures r.Delivered? ==> DecReload(data.misread, old(data.Rest())) == Some((r.infos, r.want))
    ensures !data.kernel.faulted ==> (r.Delivered? <==> DecReload(data.misread, old(data.Rest())).Some?)
  {
    hide DecVector, Parcel.Rest, Parcel.Content;
    var ok, infos := GetParcelableInfos(data);
    if !ok {
      return ParcelError;
    }
    var want := data.ReadWant();
    if want.None? {
      return ParcelError;
    }
    return Delivered(infos, want.value);
  }

  lemma ValidAndWritable(infos: seq<FormJsInfo>)
    requires AllValid(infos) && AllWritable(Values(infos))
    ensures AllSendable(Values(infos))
  {
  }

  /** The two ends together, on a fresh parcel and with no system failure, whatever the reader
      makes of misread bytes: a list is sent exactly when every form data can be written, and then
      it is delivered in order if there are at most 8192 infos and all are readable; within the
      range of the wire's fields the call fails otherwise. Nothing that was open before is lost. */
  method ReloadOverIpc(infos: seq<FormJsInfo>, want: Want, kernel: Kernel, m: Misread)
    returns (sent: bool, r: ReloadResult)
    requires AllValid(infos)
    modifies kernel
    ensures !kernel.faulted ==> (sent <==> AllWritable(Values(infos)))
    ensures !sent ==> r == ParcelError
    ensures !kernel.faulted && sent ==>
      if |infos| <= MAX_ALLOW_SIZE && AllReadable(Values(infos)) then
        && r == Delivered(Arrivals(Values(infos)), want) && |r.infos| == |infos|
        && forall i :: 0 <= i < |infos| ==> r.infos[i] == InfoArrival(infos[i].Value())
      else
        && (AllCounted(Values(infos)) && r.Delivered? ==> r.infos != Arrivals(Values(infos)))
        && (AllInRange(Values(infos)) && |infos| <= INT32_MAX ==> r == ParcelError)
    ensures kernel.mapped == old(kernel.mapped)
    ensures forall fd :: fd in old(kernel.open) ==> fd in kernel.open && kernel.open[fd] == old(kernel.open[fd])
  {
    hide EncReload, DecReload, AllReadable, AllSendable, AllWritable, AllInRange, AllCounted, Arrivals, Values;
    hide AllValid, Parcel.Loose;
    var parcel := new Parcel(kernel, m);
    r := ParcelError;
    sent := ReloadForm(infos, want, parcel);
    if sent {
      if !kernel.faulted {
        ValidAndWritable(infos);
        ReloadRoundTrip(m, Values(infos), want);
        assert parcel.Rest() == parcel.Content() == EncReload(Values(infos), want);
      }
      r := HandleReloadForm(parcel);
    }
  }
}
