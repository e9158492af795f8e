/** FormWant: parameter maps, their merge, filter and extraction, and the object that keeps one. */
module FormWantModel {
  import opened Ipc

  type Params = map<string, Interface>

  const FORM_HOST_PARAM_NAMES: seq<string> := [
    "ohos.extra.param.key.host_bg_inverse_color",
    "visualEffectType",
    "ohos.extra.param.key.disable_uifirst",
    "ohos.extra.param.key.form_enable_material_background",
    "STYLE_PARAMETERS",
    "ONE_MIRROR_CHANGE"
  ]

  const FILTER_INTERNAL_PARAMS: set<string> := {
    "form_connect_id",
    "form_acquire_form",
    "form_supply_info",
    "ohos.extra.param.form.host.token",
    "ohos.extra.param.key.form_comp_id",
    "ohos.extra.param.key.form_density",
    "ohos.extra.param.key.process_on_add_surface",
    "allowUpdate",
    "ohos.extra.param.key.layout_width",
    "ohos.extra.param.key.layout_height",
    "ohos.extra.param.key.form_view_scale",
    "isAddFormByHost",
    "ohos.extra.param.key.form_delete_background_image",
    "ohos.extra.param.key.form_color_mode",
    "ohos.connect.to.render",
    "ohos.extra.param.key.recreate"
  }

  function Merge(a: Params, b: Params): Params { a + b }

  function Filter(p: Params): Params { p - FILTER_INTERNAL_PARAMS }

  function Filtered(w: Want): Want { w.(params := Filter(w.params)) }

  /** What `p` holds under `names`, null pointers left out. */
  function Present(p: Params, names: seq<string>): Params
  {
    map k | k in p && k in names && p[k] != NullInterface :: p[k]
  }

  function HostPart(p: Params): Params { Present(p, FORM_HOST_PARAM_NAMES) }

  function Extract(target: Params, source: Params): Params { Merge(target, HostPart(source)) }

  // ---- one key at a time ----

  function PutEach(p: Params, keys: seq<string>, source: Params): Params
    requires forall k :: k in keys ==> k in source
    decreases keys
  {
    if keys == [] then p else PutEach(p[keys[0] := source[keys[0]]], keys[1..], source)
  }

  function RemoveEach(p: Params, keys: seq<string>): Params
    decreases keys
  {
    if keys == [] then p else RemoveEach(p - {keys[0]}, keys[1..])
  }

  /** Whatever order, and however often, the source's keys come in, storing them is the merge. */
  lemma {:induction false} MergeInAnyOrder(p: Params, keys: seq<string>, source: Params)
    requires forall k :: k in keys <==> k in source
    ensures PutEach(p, keys, source) == Merge(p, source)
  {
    PutEachLookup(p, keys, source);
  }

  lemma {:induction false} PutEachLookup(p: Params, keys: seq<string>, source: Params)
    requires forall k :: k in keys ==> k in source
    ensures var r := PutEach(p, keys, source);
            && (forall k :: k in r <==> k in p || k in keys)
            && (forall k :: k in r ==> r[k] == if k in keys then source[k] else p[k])
    decreases keys
  {
    if keys == [] {
    } else {
      PutEachLookup(p[keys[0] := source[keys[0]]], keys[1..], source);
      assert forall k :: k in keys <==> k == keys[0] || k in keys[1..];
    }
  }

  /** A hash set is walked in no particular order; every order filters to the same map. */
  lemma {:induction false} FilterInAnyOrder(p: Params, keys: seq<string>)
    requires forall k :: k in keys <==> k in FILTER_INTERNAL_PARAMS
    ensures RemoveEach(p, keys) == Filter(p)
  {
    RemoveEachKeys(p, keys);
  }

  lemma {:induction false} RemoveEachKeys(p: Params, keys: seq<string>)
    ensures var r := RemoveEach(p, keys);
            && (forall k :: k in r <==> k in p && k !in keys)
            && (forall k :: k in r ==> r[k] == p[k])
    decreases keys
  {
    if keys == [] {
    } else {
      RemoveEachKeys(p - {keys[0]}, keys[1..]);
      assert forall k :: k in keys <==> k == keys[0] || k in keys[1..];
    }
  }

  // ---- the algebra ----

  /** Merging is associative and idempotent, and the right side wins key by key. */
  lemma MergeLaws(a: Params, b: Params, c: Params)
    ensures Merge(Merge(a, b), c) == Merge(a, Merge(b, c))
    ensures Merge(a, a) == a && Merge(Merge(a, b), b) == Merge(a, b)
    ensures forall k :: k in Merge(a, b) <==> k in a || k in b
    ensures forall k :: k in Merge(a, b) ==> Merge(a, b)[k] == if k in b then b[k] else a[k]
  {
  }

  /** Filtering commutes with merging, so filtering before or after a merge is the same. */
  lemma FilterOverMerge(a: Params, b: Params)
    ensures Filter(Merge(a, b)) == Merge(Filter(a), Filter(b))
    ensures Filter(Filter(a)) == Filter(a)
  {
  }

  lemma HostKeysAreNotInternal(k: string)
    requires k in FORM_HOST_PARAM_NAMES
    ensures k !in FILTER_INTERNAL_PARAMS
  {
  }

  /** No host parameter is an internal one, so extraction is blind to filtering its source, and
      filtering its target can be done before or after. */
  lemma ExtractCommutesWithFilter(target: Params, source: Params)
    ensures Extract(target, Filter(source)) == Extract(target, source)
    ensures Filter(Extract(target, source)) == Extract(Filter(target), Filter(source))
  {
    HostPartUnfiltered(source);
    FilterOverMerge(target, HostPart(source));
  }

  lemma HostPartUnfiltered(p: Params)
    ensures HostPart(Filter(p)) == HostPart(p) == Filter(HostPart(p))
  {
    forall k | k in FORM_HOST_PARAM_NAMES ensures k !in FILTER_INTERNAL_PARAMS { HostKeysAreNotInternal(k); }
    hide FORM_HOST_PARAM_NAMES, FILTER_INTERNAL_PARAMS;
  }

  predicate HostKey(k: string) { k in FORM_HOST_PARAM_NAMES }

  /** The source restricted to the host parameters, null pointers included. */
  function HostKeysOf(p: Params): Params { map k | k in p && HostKey(k) :: p[k] }

  /** Extraction is the merge of the source restricted to the six host parameters exactly when
      every host parameter the source binds to a null pointer is bound to one in the target. */
  lemma ExtractIsMergeOfHostKeys(target: Params, source: Params)
    ensures Extract(target, source) == Merge(target, HostKeysOf(source))
      <==> forall k :: k in source && HostKey(k) && source[k] == NullInterface
                  ==> k in target && target[k] == NullInterface
  {
    var (x, m) := (Extract(target, source), Merge(target, HostKeysOf(source)));
    forall k
      ensures k in x <==> k in target || (k in source && HostKey(k) && source[k] != NullInterface)
      ensures k in m <==> k in target || (k in source && HostKey(k))
    {
    }
    hide FORM_HOST_PARAM_NAMES;
    if x == m {
      forall k | k in source && HostKey(k) && source[k] == NullInterface
        ensures k in target && target[k] == NullInterface
      {
        assert k in m && m[k] == NullInterface;
        assert k in x && x[k] == target[k];
      }
    }
  }

  /** Extracting from a merge is extracting twice, exactly when no null pointer in the right map
      hides a host value of the left one that the target does not already have. */
  lemma ExtractOverMerge(target: Params, a: Params, b: Params)
    ensures Extract(target, Merge(a, b)) == Extract(Extract(target, a), b)
      <==> forall k :: k in a && k in b && HostKey(k) && a[k] != NullInterface && b[k] == NullInterface
                  ==> k in target && target[k] == a[k]
  {
    hide Extract, HostKey;
    ExtractLookup(target, Merge(a, b));
    ExtractLookup(target, a);
    ExtractLookup(Extract(target, a), b);
    var (x, y) := (Extract(target, Merge(a, b)), Extract(Extract(target, a), b));
    if x == y {
      forall k | k in a && k in b && HostKey(k) && a[k] != NullInterface && b[k] == NullInterface
        ensures k in target && target[k] == a[k]
      {
        assert k in y && y[k] == a[k];
        assert k in x;
      }
    }
  }

  predicate Gives(p: Params, k: string) { HostKey(k) && k in p && p[k] != NullInterface }

  lemma ExtractLookup(target: Params, source: Params)
    ensures var x := Extract(target, source);
            && (forall k :: k in x <==> k in target || Gives(source, k))
            && (forall k :: k in x ==> x[k] == if Gives(source, k) then source[k] else target[k])
  {
  }

  // ---- the loops ----

  /** Stores every source parameter, the keys in any order. */
  method MergeParams(target: Params, source: Params) returns (r: Params)
    ensures r == Merge(target, source)
  {
    hide Merge;
    NothingMerged(target, source);
    r := target;
    var rest := source.Keys;
    while rest != {}
      invariant rest <= source.Keys
      invariant r == Merge(target, source - rest)
      decreases |rest|
    {
      var key :| key in rest;
      MergeNext(target, source, rest, key);
      r := r[key := source[key]];
      rest := rest - {key};
    }
    assert source - {} == source;
  }

  lemma NothingMerged(target: Params, source: Params)
    ensures Merge(target, source - source.Keys) == target
  {
    assert source - source.Keys == map[];
  }

  lemma MergeNext(target: Params, source: Params, rest: set<string>, key: string)
    requires key in rest && rest <= source.Keys
    ensures Merge(target, source - rest)[key := source[key]] == Merge(target, source - (rest - {key}))
  {
  }

  method FilterInternalParams(want: Want) returns (r: Want)
    ensures r == Filtered(want)
    ensures r.element == want.element
    ensures forall k :: k in r.params <==> k in want.params && k !in FILTER_INTERNAL_PARAMS
    ensures forall k :: k in r.params ==> r.params[k] == want.params[k]
  {
    hide FILTER_INTERNAL_PARAMS;
    r := want;
    var rest := FILTER_INTERNAL_PARAMS;
    while rest != {}
      invariant rest <= FILTER_INTERNAL_PARAMS
      invariant r == want.(params := want.params - (FILTER_INTERNAL_PARAMS - rest))
      decreases |rest|
    {
      var param :| param in rest;
      r := r.(params := r.params - {param});
      rest := rest - {param};
    }
  }

  method MergeWantParams(target: Want, source: Want) returns (r: Want)
    ensures r == target.(params := Merge(target.params, source.params))
    ensures r.element == target.element
    ensures forall k :: k in r.params <==> k in target.params || k in source.params
    ensures forall k :: k in r.params ==>
      r.params[k] == if k in source.params then source.params[k] else target.params[k]
  {
    var params := MergeParams(target.params, source.params);
    r := target.(params := params);
  }

  class FormWant {
    var want: Want

    constructor (w: Want)
      ensures want == w
    {
      want := w;
    }

    constructor Copy(other: FormWant)
      ensures want == other.want
    {
      want := other.want;
    }

    method Assign(other: FormWant)
      modifies this
      ensures want == old(other.want) == other.want
    {
      if this == other {
        return;
      }
      want := other.want;
    }

    method GetWant() returns (r: Want)
      ensures r == want
    {
      r := want;
    }

    method SetParam(key: string, value: Interface)
      modifies this
      ensures want == old(want).(params := old(want).params[key := value])
    {
      want := want.(params := want.params[key := value]);
    }

    method RemoveParam(key: string)
      modifies this
      ensures want == old(want).(params := old(want).params - {key})
    {
      want := want.(params := want.params - {key});
    }

    method GetFilteredWant() returns (r: Want)
      ensures r == Filtered(want)
      ensures r.element == want.element
      ensures forall k :: k in r.params <==> k in want.params && k !in FILTER_INTERNAL_PARAMS
      ensures forall k :: k in r.params ==> r.params[k] == want.params[k]
    {
      hide FILTER_INTERNAL_PARAMS;
      r := FilterInternalParams(want);
    }

    method MergeFrom(w: Want)
      modifies this
      ensures want == old(want).(params := Merge(old(want).params, w.params))
      ensures want.element == old(want).element
      ensures forall k :: k in want.params <==> k in old(want).params || k in w.params
      ensures forall k :: k in want.params ==>
        want.params[k] == if k in w.params then w.params[k] else old(want).params[k]
    {
      var params := MergeParams(want.params, w.params);
      want := want.(params := params);
    }

    method ExtractHostParamsToWant(target: Want) returns (r: Want)
      ensures r == target.(params := Extract(target.params, want.params))
      ensures r.element == target.element
      ensures forall k :: k in r.params <==> k in target.params || Gives(want.params, k)
      ensures forall k :: k in r.params ==>
        r.params[k] == if Gives(want.params, k) then want.params[k] else target.params[k]
    {
      ExtractLookup(target.params, want.params);
      hide FORM_HOST_PARAM_NAMES, Present;
      var source, params := want.params, target.params;
      PresentNone(source);
      for i := 0 to |FORM_HOST_PARAM_NAMES|
        invariant params == Merge(target.params, Present(source, FORM_HOST_PARAM_NAMES[..i]))
      {
        var key := FORM_HOST_PARAM_NAMES[i];
        PresentNext(source, FORM_HOST_PARAM_NAMES, i);
        if key in source {
          var value := source[key];
          if value != NullInterface {
            params := params[key := value];
          }
        }
      }
      assert FORM_HOST_PARAM_NAMES[..|FORM_HOST_PARAM_NAMES|] == FORM_HOST_PARAM_NAMES;
      r := target.(params := params);
    }
  }

  lemma PresentNone(p: Params)
    ensures Present(p, []) == map[]
  {
  }

  lemma PresentNext(p: Params, names: seq<string>, i: nat)
    requires i < |names|
    ensures Present(p, names[..i + 1])
         == if names[i] in p && p[names[i]] != NullInterface then Present(p, names[..i])[names[i] := p[names[i]]]
            else Present(p, names[..i])
  {
  }
}
