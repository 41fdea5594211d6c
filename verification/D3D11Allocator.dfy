/** D3D11FrameAllocator: handles for textures, kept in a list by request and in a map by handle. */
module D3D11Allocator {
  import opened FrameAllocator
  import opened Options

  /** A texture object of the device. */
  datatype Texture = Texture(id: int)

  datatype TextureResource = TextureResource(outerMids: seq<nat>, textures: seq<Texture>, staging: seq<Texture>, live: bool)

  /** The list of requests, and for each handle h the position in it, at memIdMap[h - 1]. */
  datatype Store = Store(resources: seq<TextureResource>, memIdMap: seq<nat>)

  /** What a handle stands for. */
  datatype SubResource = SubResource(entry: nat, texture: Texture, staging: Texture, sub: nat)

  // ---------------------------------------------------------------- operations on values

  /** The last handle issued, or 0. */
  function LastMid(s: Store): nat {
    if s.resources != [] && s.resources[|s.resources| - 1].outerMids != []
    then var r := s.resources[|s.resources| - 1]; r.outerMids[|r.outerMids| - 1]
    else 0
  }

  function Mids(seed: nat, n: nat): seq<nat> { seq(n, i => seed + 1 + i) }

  function Added(s: Store, n: nat, textures: seq<Texture>, staging: seq<Texture>): Store {
    Store(s.resources + [TextureResource(Mids(LastMid(s), n), textures, staging, true)],
          s.memIdMap + seq(n, i => |s.resources|))
  }

  predicate AnyAllocated(resources: seq<TextureResource>) {
    exists k :: 0 <= k < |resources| && resources[k].live
  }

  function Marked(s: Store, k: nat): Store
    requires k < |s.resources|
  {
    s.(resources := s.resources[k := s.resources[k].(textures := [], staging := [], live := false)])
  }

  /** A request is marked as released; when it was the last one, everything is forgotten. */
  function Dropped(s: Store, k: nat): Store
    requires k < |s.resources|
  {
    if AnyAllocated(Marked(s, k).resources) then Marked(s, k) else Store([], [])
  }

  /** The bounds that the lookup relies on: see Inv. */
  predicate Sound(s: Store, mid: nat) {
    0 < mid <= |s.memIdMap| ==>
      s.memIdMap[mid - 1] < |s.resources| &&
      var r := s.resources[s.memIdMap[mid - 1]];
      r.live ==> r.outerMids != [] && r.outerMids[0] <= mid && r.textures != [] && mid - r.outerMids[0] < |r.staging|
  }

  /** GetResourceFromMid. Handle 0 is too large once 1 is subtracted in unsigned arithmetic. */
  function Lookup(s: Store, mid: nat): Option<SubResource>
    requires Sound(s, mid)
  {
    if mid == 0 || mid > |s.memIdMap| then None
    else
      var k := s.memIdMap[mid - 1];
      var r := s.resources[k];
      if !r.live then None
      else
        var idx := mid - r.outerMids[0];
        Some(SubResource(k, r.textures[idx % |r.textures|], r.staging[idx], idx / |r.textures|))
  }

  // ---------------------------------------------------------------- the invariant

  predicate Handles(s: Store) {
    && |s.memIdMap| == LastMid(s)
    && (forall k :: 0 <= k < |s.resources| ==> s.resources[k].outerMids != [])
    && (forall k, j :: 0 <= k < |s.resources| && 0 <= j < |s.resources[k].outerMids| ==>
          s.resources[k].outerMids[j] == s.resources[k].outerMids[0] + j)
    && (forall k, j :: 0 <= k < |s.resources| && 0 <= j < |s.resources[k].outerMids| ==>
          Issued(s, k, s.resources[k].outerMids[j]))
    && (forall m :: 0 <= m < |s.memIdMap| ==> Owner(s, m))
  }

  /** The map sends the handle to the request that issued it. */
  predicate Issued(s: Store, k: nat, mid: nat) { 0 < mid <= |s.memIdMap| && s.memIdMap[mid - 1] == k }

  /** The request that the map gives for handle m + 1 issued that handle. */
  predicate Owner(s: Store, m: nat)
    requires m < |s.memIdMap|
  {
    s.memIdMap[m] < |s.resources| && s.resources[s.memIdMap[m]].outerMids != [] &&
    s.resources[s.memIdMap[m]].outerMids[0] <= m + 1 < s.resources[s.memIdMap[m]].outerMids[0] + |s.resources[s.memIdMap[m]].outerMids|
  }

  /** One texture with a subresource a frame, or one texture a frame; one staging texture a frame. */
  predicate Layout(single: bool, r: TextureResource) {
    if r.live then |r.staging| == |r.outerMids| && |r.textures| == if single then 1 else |r.outerMids|
    else r.textures == [] && r.staging == []
  }

  predicate OwnTextures(s: Store) {
    forall k, i, k', i' ::
      0 <= k < |s.resources| && 0 <= i < |s.resources[k].textures| &&
      0 <= k' < |s.resources| && 0 <= i' < |s.resources[k'].textures| && (k != k' || i != i') ==>
        s.resources[k].textures[i] != s.resources[k'].textures[i']
  }

  predicate Inv(single: bool, s: Store) {
    && Handles(s)
    && (forall k :: 0 <= k < |s.resources| ==> Layout(single, s.resources[k]))
    && OwnTextures(s)
    && (s.resources != [] ==> AnyAllocated(s.resources))
  }

  lemma SoundLookup(single: bool, s: Store, mid: nat)
    requires Inv(single, s)
    ensures Sound(s, mid)
  {
    hide OwnTextures, LastMid, AnyAllocated;
    if 0 < mid <= |s.memIdMap| {
      assert Owner(s, mid - 1);
    }
  }

  predicate FreshTextures(s: Store, ts: seq<Texture>) {
    && (forall i, j :: 0 <= i < j < |ts| ==> ts[i] != ts[j])
    && (forall k, i, j :: 0 <= k < |s.resources| && 0 <= i < |s.resources[k].textures| && 0 <= j < |ts| ==> s.resources[k].textures[i] != ts[j])
  }

  lemma AddedHandles(s: Store, n: nat, textures: seq<Texture>, staging: seq<Texture>)
    requires Handles(s) && n > 0
    ensures Handles(Added(s, n, textures, staging))
  {
    var t := Added(s, n, textures, staging);
    var e := |s.resources|;
    assert LastMid(t) == LastMid(s) + n;
    hide LastMid;
    forall k, j | 0 <= k < |t.resources| && 0 <= j < |t.resources[k].outerMids|
      ensures Issued(t, k, t.resources[k].outerMids[j])
    {
      if k < e {
        assert Issued(s, k, s.resources[k].outerMids[j]);
      }
    }
    forall m | 0 <= m < |t.memIdMap| ensures Owner(t, m) {
      if m < |s.memIdMap| {
        assert Owner(s, m);
      }
    }
  }

  /** A request keeps the invariant, in either texture mode. */
  lemma AddedKeeps(single: bool, s: Store, n: nat, textures: seq<Texture>, staging: seq<Texture>)
    requires Inv(single, s) && n > 0 && FreshTextures(s, textures)
    requires |staging| == n && |textures| == if single then 1 else n
    ensures Inv(single, Added(s, n, textures, staging))
  {
    var t := Added(s, n, textures, staging);
    AddedHandles(s, n, textures, staging);
    assert t.resources[|s.resources|].live;
    hide Handles, LastMid;
  }

  lemma MarkedHandles(s: Store, k: nat)
    requires Handles(s) && k < |s.resources|
    ensures Handles(Marked(s, k))
  {
    var t := Marked(s, k);
    assert LastMid(t) == LastMid(s);
    hide LastMid;
    forall m | 0 <= m < |t.memIdMap| ensures Owner(t, m) {
      assert Owner(s, m);
    }
    forall k', j | 0 <= k' < |t.resources| && 0 <= j < |t.resources[k'].outerMids|
      ensures Issued(t, k', t.resources[k'].outerMids[j])
    {
      assert Issued(s, k', s.resources[k'].outerMids[j]);
    }
  }

  lemma DroppedKeeps(single: bool, s: Store, k: nat)
    requires Inv(single, s) && k < |s.resources|
    ensures Inv(single, Dropped(s, k))
  {
    MarkedHandles(s, k);
    EmptyHandles();
    hide Handles;
  }

  lemma EmptyHandles()
    ensures Handles(Store([], []))
  {
  }

  // ---------------------------------------------------------------- what handles stand for

  /** Handle number j of request k. */
  predicate IsHandle(s: Store, k: nat, j: nat) { k < |s.resources| && j < |s.resources[k].outerMids| }

  /** No handle is issued twice. */
  lemma HandlesAreUnique(single: bool, s: Store, k: nat, j: nat, k': nat, j': nat)
    requires Inv(single, s) && IsHandle(s, k, j) && IsHandle(s, k', j')
    requires s.resources[k].outerMids[j] == s.resources[k'].outerMids[j']
    ensures k == k' && j == j'
  {
    hide OwnTextures, LastMid, AnyAllocated, Layout;
    assert Issued(s, k, s.resources[k].outerMids[j]) && Issued(s, k', s.resources[k'].outerMids[j']);
  }

  /** A handle leads back to the request that issued it and to its own place there, as long as that is allocated. */
  lemma LookupFindsIssuer(single: bool, s: Store, k: nat, j: nat)
    requires Inv(single, s) && IsHandle(s, k, j)
    ensures var mid, r := s.resources[k].outerMids[j], s.resources[k];
            Sound(s, mid) && Lookup(s, mid) ==
              if !r.live then None
              else if single then Some(SubResource(k, r.textures[0], r.staging[j], j))
              else Some(SubResource(k, r.textures[j], r.staging[j], 0))
  {
    hide OwnTextures, LastMid, AnyAllocated;
    var mid := s.resources[k].outerMids[j];
    assert Issued(s, k, mid);
    assert mid - s.resources[k].outerMids[0] == j;
    if s.resources[k].live {
      Places(single, j, |s.resources[k].outerMids|);
    }
  }

  lemma Places(single: bool, j: nat, n: nat)
    requires j < n
    ensures var m := if single then 1 else n; j % m == (if single then 0 else j) && j / m == if single then j else 0
  {
  }

  /** What is found is always a handle of an allocated request. */
  lemma LookupFindsOnlyIssued(single: bool, s: Store, mid: nat)
    requires Inv(single, s)
    ensures Sound(s, mid)
    ensures Lookup(s, mid).Some? <==> exists k: nat, j: nat :: IsHandle(s, k, j) && s.resources[k].live && s.resources[k].outerMids[j] == mid
  {
    SoundLookup(single, s, mid);
    if 0 < mid <= |s.memIdMap| && s.resources[s.memIdMap[mid - 1]].live {
      assert Owner(s, mid - 1);
      var k := s.memIdMap[mid - 1];
      assert IsHandle(s, k, mid - s.resources[k].outerMids[0]);
    }
    if k: nat, j: nat :| IsHandle(s, k, j) && s.resources[k].live && s.resources[k].outerMids[j] == mid {
      LookupFindsIssuer(single, s, k, j);
    }
  }

  /** Distinct handles never stand for the same place in the same texture, in either texture mode. */
  lemma NoTwoHandlesShare(single: bool, s: Store, a: nat, b: nat)
    requires Inv(single, s) && a != b && Sound(s, a) && Sound(s, b) && Lookup(s, a).Some? && Lookup(s, b).Some?
    ensures var x, y := Lookup(s, a).value, Lookup(s, b).value; (x.texture, x.sub) != (y.texture, y.sub)
  {
    LookupFindsOnlyIssued(single, s, a);
    LookupFindsOnlyIssued(single, s, b);
    var k: nat, i: nat :| IsHandle(s, k, i) && s.resources[k].live && s.resources[k].outerMids[i] == a;
    var l: nat, j: nat :| IsHandle(s, l, j) && s.resources[l].live && s.resources[l].outerMids[j] == b;
    LookupFindsIssuer(single, s, k, i);
    LookupFindsIssuer(single, s, l, j);
    hide Handles, AnyAllocated, Lookup, Sound;
  }

  /** Releasing a request kills its handles and leaves what the handles of the others stand for. */
  lemma OthersKeepTheirs(single: bool, s: Store, k: nat, l: nat, j: nat)
    requires Inv(single, s) && k < |s.resources| && IsHandle(s, l, j)
    ensures var mid := s.resources[l].outerMids[j];
            Sound(s, mid) && Sound(Dropped(s, k), mid) &&
            Lookup(Dropped(s, k), mid) == if l == k then None else Lookup(s, mid)
  {
    DroppedKeeps(single, s, k);
    LookupFindsIssuer(single, s, l, j);
    var mid := s.resources[l].outerMids[j];
    SoundLookup(single, Dropped(s, k), mid);
    if AnyAllocated(Marked(s, k).resources) {
      LookupFindsIssuer(single, Marked(s, k), l, j);
    } else {
      assert l != k ==> !Marked(s, k).resources[l].live;
    }
    hide Handles, OwnTextures, Sound, LastMid;
  }

  // ---------------------------------------------------------------- the two operations the base class calls

  /** A request as the device sees it: colour format, use as a render target, and the textures created before a failure. */
  datatype Device = Device(nv12: bool, renderTarget: bool, made: seq<Texture>)

  function ArraySize(single: bool, n: nat): (k: nat)
    ensures n > 0 ==> k > 0
  { if single then n else 1 }

  /** The number of textures for n frames, besides the staging textures. */
  function TextureCount(single: bool, n: nat): (count: nat)
    requires n > 0
    ensures count == if single then 1 else n
  {
    n / ArraySize(single, n)
  }

  predicate Accepted(single: bool, n: nat, d: Device)
    requires n > 0
  {
    d.nv12 && !(d.renderTarget && ArraySize(single, n) > 2) && TextureCount(single, n) + n <= |d.made|
  }

  function AllocStore(single: bool, s: Store, n: nat, d: Device): Store
    requires n > 0
  {
    var count := TextureCount(single, n);
    if Accepted(single, n, d) then Added(s, n, d.made[..count], d.made[count..count + n]) else s
  }

  function AllocResult(single: bool, s: Store, n: nat, d: Device): Impl
    requires n > 0
  {
    if !d.nv12 then Impl(Unsupported, Response(0, 0))
    else if !Accepted(single, n, d) then Impl(MemoryAlloc, Response(0, 0))
    else Impl(Ok, Response(LastMid(s) + 1, n))
  }

  /**
   * An allocation succeeds exactly for NV12, unless it is a render target in one texture of more than two frames, and if
   * the device gives one texture or one a frame, and a staging texture a frame. The handles are the next n numbers.
   */
  lemma AllocationSucceeds(single: bool, s: Store, n: nat, d: Device)
    requires n > 0
    ensures var impl, t := AllocResult(single, s, n, d), AllocStore(single, s, n, d);
            && (impl.status == Ok <==> d.nv12 && !(d.renderTarget && single && n > 2) && |d.made| >= (if single then 1 else n) + n)
            && (impl.status == Unsupported <==> !d.nv12) && (impl.status != Ok && d.nv12 ==> impl.status == MemoryAlloc)
            && (impl.status != Ok ==> t == s)
            && (impl.status == Ok ==>
                  var m := if single then 1 else n;
                  |t.resources| == |s.resources| + 1 && t.resources[..|s.resources|] == s.resources &&
                  t.resources[|s.resources|] ==
                    TextureResource(seq(n, i => impl.response.mid + i), d.made[..m], d.made[m..m + n], true) &&
                  impl.response == Response(LastMid(s) + 1, n))
  {
    hide LastMid;
    if Accepted(single, n, d) {
      assert Mids(LastMid(s), n) == seq(n, i => LastMid(s) + 1 + i);
    }
  }

  function ReleaseStore(s: Store, r: Response): Store
    requires Sound(s, r.mid)
  {
    if r.mid == 0 || r.frames == 0 || Lookup(s, r.mid).None? then s
    else Dropped(s, Lookup(s, r.mid).value.entry)
  }

  const NULL_PTR := -2

  function ReleaseResult(s: Store, r: Response): Status
    requires Sound(s, r.mid)
  {
    if r.mid != 0 && r.frames != 0 && Lookup(s, r.mid).None? then Failed(NULL_PTR) else Ok
  }

  /** Some handle of a request whose textures are alive. */
  predicate LiveHandle(s: Store, k: nat, j: nat, mid: nat) {
    IsHandle(s, k, j) && s.resources[k].live && s.resources[k].outerMids[j] == mid
  }

  /**
   * A response without handle or frames is left alone; a handle of no living request is refused; for the others, all
   * textures of the request are given up, and with the last living request the lists start anew.
   */
  lemma ReleaseAnswers(single: bool, s: Store, r: Response)
    requires Inv(single, s)
    ensures Sound(s, r.mid)
    ensures r.mid == 0 || r.frames == 0 ==> ReleaseResult(s, r) == Ok && ReleaseStore(s, r) == s
    ensures r.mid != 0 && r.frames != 0 && (forall k: nat, j: nat :: !LiveHandle(s, k, j, r.mid)) ==>
              ReleaseResult(s, r) == Failed(-2) && ReleaseStore(s, r) == s
    ensures forall k: nat, j: nat :: r.mid != 0 && r.frames != 0 && LiveHandle(s, k, j, r.mid) ==>
              && ReleaseResult(s, r) == Ok
              && (if exists l :: 0 <= l < |s.resources| && l != k && s.resources[l].live
                  then ReleaseStore(s, r) ==
                         Store(s.resources[k := TextureResource(s.resources[k].outerMids, [], [], false)], s.memIdMap)
                  else ReleaseStore(s, r) == Store([], []))
  {
    SoundLookup(single, s, r.mid);
    LookupFindsOnlyIssued(single, s, r.mid);
    forall k: nat, j: nat | r.mid != 0 && r.frames != 0 && LiveHandle(s, k, j, r.mid)
      ensures Lookup(s, r.mid).Some? && Lookup(s, r.mid).value.entry == k
    {
      LookupFindsIssuer(single, s, k, j);
    }
    hide Inv, Handles, OwnTextures, Layout, Sound, Lookup;
    forall k: nat | k < |s.resources|
      ensures AnyAllocated(Marked(s, k).resources) <==> exists l :: 0 <= l < |s.resources| && l != k && s.resources[l].live
    {
      DroppedIsForgotten(s, k);
    }
    if r.mid != 0 && r.frames != 0 && Lookup(s, r.mid).Some? {
      var k: nat, j: nat :| IsHandle(s, k, j) && s.resources[k].live && s.resources[k].outerMids[j] == r.mid;
      assert LiveHandle(s, k, j, r.mid);
    }
  }

  lemma DroppedIsForgotten(s: Store, k: nat)
    requires k < |s.resources|
    ensures AnyAllocated(Marked(s, k).resources) <==> exists l :: 0 <= l < |s.resources| && l != k && s.resources[l].live
  {
    var t := Marked(s, k).resources;
    if l :| 0 <= l < |s.resources| && l != k && s.resources[l].live {
      assert t[l].live;
    }
  }

  predicate FreshDevice(single: bool, s: Store, n: nat, d: Device)
    requires n > 0
  {
    var count := TextureCount(single, n);
    count <= |d.made| ==> FreshTextures(s, d.made[..count])
  }

  lemma AllocStoreKeeps(single: bool, s: Store, n: nat, d: Device)
    requires Inv(single, s) && n > 0 && FreshDevice(single, s, n, d)
    ensures Inv(single, AllocStore(single, s, n, d))
  {
    hide Inv, Added, FreshTextures;
    if Accepted(single, n, d) {
      var count := TextureCount(single, n);
      assert count == if single then 1 else n;
      AddedKeeps(single, s, n, d.made[..count], d.made[count..count + n]);
    }
  }

  lemma ReleaseStoreKeeps(single: bool, s: Store, r: Response)
    requires Inv(single, s)
    ensures Sound(s, r.mid) && Inv(single, ReleaseStore(s, r))
  {
    SoundLookup(single, s, r.mid);
    hide Inv, Dropped;
    if Lookup(s, r.mid).Some? {
      DroppedKeeps(single, s, Lookup(s, r.mid).value.entry);
    }
  }

  /** The cases of a request, with the number of textures worked out. */
  lemma AllocCases(single: bool, s: Store, n: nat, d: Device)
    requires n > 0
    ensures var store, impl, count := AllocStore(single, s, n, d), AllocResult(single, s, n, d), TextureCount(single, n);
            if !d.nv12 then store == s && impl == Impl(Unsupported, Response(0, 0))
            else if (d.renderTarget && ArraySize(single, n) > 2) || |d.made| < count + n
            then store == s && impl == Impl(MemoryAlloc, Response(0, 0))
            else store == Added(s, n, d.made[..count], d.made[count..count + n]) && impl == Impl(Ok, Response(LastMid(s) + 1, n))
  {
    hide Added, LastMid;
  }

  class D3D11FrameAllocator {
    const singleTexture: bool
    var resources: seq<TextureResource>
    var memIdMap: seq<nat>

    function Value(): Store
      reads this
    {
      Store(resources, memIdMap)
    }

    ghost predicate Valid()
      reads this
    {
      Inv(singleTexture, Value())
    }

    constructor (single: bool)
      ensures Valid() && singleTexture == single && Value() == Store([], [])
    {
      singleTexture, resources, memIdMap := single, [], [];
    }

    /** n is the number of frames suggested; the base class has refused 0. */
    method AllocImpl(n: nat, d: Device) returns (impl: Impl)
      requires Valid() && n > 0 && FreshDevice(singleTexture, Value(), n, d)
      modifies this
      ensures Valid() && Value() == AllocStore(singleTexture, old(Value()), n, d)
      ensures impl == AllocResult(singleTexture, old(Value()), n, d)
    {
      hide Inv, FreshTextures, Added, LastMid, AllocStore, AllocResult, FreshDevice, ArraySize, TextureCount;
      AllocStoreKeeps(singleTexture, Value(), n, d);
      AllocCases(singleTexture, Value(), n, d);
      impl := Impl(if d.nv12 then MemoryAlloc else Unsupported, Response(0, 0));
      if d.nv12 && !(d.renderTarget && ArraySize(singleTexture, n) > 2) {
        var count := TextureCount(singleTexture, n);
        var ok, textures := CreateTextures(d.made, 0, count);
        if ok {
          var staging;
          ok, staging := CreateTextures(d.made, count, n);
          if ok {
            assert textures == d.made[..count];
            impl := ListRequest(n, textures, staging);
          }
        }
      }
    }

    /** Numbers the new handles from the last one on, and enters request and handles. */
    method ListRequest(n: nat, textures: seq<Texture>, staging: seq<Texture>) returns (impl: Impl)
      modifies this
      ensures Value() == Added(old(Value()), n, textures, staging)
      ensures impl == Impl(Ok, Response(LastMid(old(Value())) + 1, n))
    {
      var seed := LastMid(Value());
      var last := |resources|;
      resources := resources + [TextureResource(Mids(seed, n), textures, staging, true)];
      memIdMap := memIdMap + seq(n, i => last);
      impl := Impl(Ok, Response(seed + 1, n));
    }

    /** One CreateTexture2D after the other, until one fails. */
    method CreateTextures(made: seq<Texture>, from: nat, n: nat) returns (ok: bool, ts: seq<Texture>)
      requires from <= |made|
      ensures ok == (from + n <= |made|)
      ensures ok ==> ts == made[from..from + n]
    {
      ts := [];
      for i := 0 to n
        invariant from + i <= |made| && ts == made[from..from + i]
      {
        if from + i == |made| {
          return false, ts;
        }
        ts := ts + [made[from + i]];
      }
      ok := true;
    }

    method ReleaseResponse(r: Response) returns (status: Status)
      requires Valid()
      modifies this
      ensures Sound(old(Value()), r.mid)
      ensures Valid() && Value() == ReleaseStore(old(Value()), r) && status == ReleaseResult(old(Value()), r)
    {
      ReleaseStoreKeeps(singleTexture, Value(), r);
      hide Inv;
      status := Ok;
      if r.mid != 0 && r.frames != 0 {
        var sr := GetResourceFromMid(r.mid);
        if sr.None? {
          return Failed(NULL_PTR);
        }
        var k := sr.value.entry;
        resources := resources[k := resources[k].(textures := [], staging := [], live := false)];
        if forall k :: 0 <= k < |resources| ==> !resources[k].live {
          resources, memIdMap := [], [];
        }
      }
    }

    method GetResourceFromMid(mid: nat) returns (sr: Option<SubResource>)
      requires Sound(Value(), mid)
      ensures sr == Lookup(Value(), mid)
      ensures sr.Some? ==> sr.value.entry < |resources|
    {
      if mid == 0 || |memIdMap| <= mid - 1 {
        return None;
      }
      var r := resources[memIdMap[mid - 1]];
      if !r.live {
        return None;
      }
      var idx := mid - r.outerMids[0];
      return Some(SubResource(memIdMap[mid - 1], r.textures[idx % |r.textures|], r.staging[idx], idx / |r.textures|));
    }
  }

  // ---------------------------------------------------------------- with the base class

  datatype Call = AllocCall(q: Request, d: Device) | FreeCall(r: Response)

  /** The base class's lists and the derived class's textures. */
  datatype Both = Both(lists: Lists, store: Store)

  /** The request as the base class sees it, with what this class answers. */
  function OpOf(single: bool, b: Both, c: Call): Op
    requires c.FreeCall? ==> Sound(b.store, c.r.mid)
  {
    match c
    case AllocCall(q, d) =>
      Alloc(q, if CallsImpl(b.lists, q) then AllocResult(single, b.store, q.frameSuggested, d) else Impl(Ok, Response(0, 0)))
    case FreeCall(r) => Free(r, ReleaseResult(b.store, r))
  }

  function StoreAfter(single: bool, b: Both, c: Call): Store
    requires c.FreeCall? ==> Sound(b.store, c.r.mid)
  {
    match c
    case AllocCall(q, d) => if CallsImpl(b.lists, q) then AllocStore(single, b.store, q.frameSuggested, d) else b.store
    case FreeCall(r) =>
      if Released(r) in Perform(b.lists, OpOf(single, b, c)).events then ReleaseStore(b.store, r) else b.store
  }

  /** Request k is what response r was given for. */
  predicate Backs(s: Store, k: nat, r: Response) {
    k < |s.resources| && s.resources[k].live && s.resources[k].outerMids != [] &&
    s.resources[k].outerMids[0] == r.mid && |s.resources[k].outerMids| == r.frames
  }

  /** The responses listed by the base class are exactly the requests allocated here. */
  ghost predicate Linked(b: Both) {
    && (forall r :: Listed(b.lists, r) ==> exists k: nat :: Backs(b.store, k, r))
    && (forall k: nat, r :: Backs(b.store, k, r) ==> Listed(b.lists, r))
  }

  ghost predicate BothInv(single: bool, b: Both, log: seq<Event>) {
    Orderly(b.lists) && Balanced(b.lists, log) && Inv(single, b.store) && Linked(b)
  }

  /** The device gives textures that are not in use. */
  predicate FreshCall(single: bool, b: Both, c: Call) {
    c.AllocCall? && CallsImpl(b.lists, c.q) ==> FreshDevice(single, b.store, c.q.frameSuggested, c.d)
  }

  lemma BackedByFirst(single: bool, s: Store, k: nat, r: Response)
    requires Inv(single, s) && Backs(s, k, r)
    ensures 0 < r.mid <= LastMid(s) && r.frames > 0 && Sound(s, r.mid)
    ensures Lookup(s, r.mid).Some? && Lookup(s, r.mid).value.entry == k
  {
    assert IsHandle(s, k, 0);
    LookupFindsIssuer(single, s, k, 0);
    hide Lookup, OwnTextures, AnyAllocated, Layout;
    assert Issued(s, k, s.resources[k].outerMids[0]);
  }

  /** Two requests never back the same response. */
  lemma BackedOnce(single: bool, s: Store, k: nat, k': nat, r: Response)
    requires Inv(single, s) && Backs(s, k, r) && Backs(s, k', r)
    ensures k == k'
  {
    BackedByFirst(single, s, k, r);
    BackedByFirst(single, s, k', r);
  }

  /** What this class answers is always fresh: the handle comes after every handle issued. */
  lemma AnswersAreFresh(single: bool, b: Both, log: seq<Event>, c: Call)
    requires BothInv(single, b, log) && (c.FreeCall? ==> Sound(b.store, c.r.mid))
    ensures FreshImpl(b.lists, OpOf(single, b, c))
  {
    hide Orderly, Balanced, Inv, Listed, LastMid;
    if c.AllocCall? && CallsImpl(b.lists, c.q) {
      var r := Response(LastMid(b.store) + 1, c.q.frameSuggested);
      if Listed(b.lists, r) {
        var k: nat :| Backs(b.store, k, r);
        BackedByFirst(single, b.store, k, r);
        assert false;
      }
    }
  }

  lemma LinkAdded(single: bool, b: Both, n: nat, textures: seq<Texture>, staging: seq<Texture>, lists: Lists)
    requires Inv(single, b.store) && Linked(b) && n > 0
    requires forall r :: Listed(lists, r) <==> Listed(b.lists, r) || r == Response(LastMid(b.store) + 1, n)
    ensures Linked(Both(lists, Added(b.store, n, textures, staging)))
  {
    var s := b.store;
    var t := Added(s, n, textures, staging);
    var made := Response(LastMid(s) + 1, n);
    hide Inv, Listed, LastMid;
    assert Backs(t, |s.resources|, made);
    assert forall k: nat, r :: Backs(t, k, r) <==> if k == |s.resources| then r == made else Backs(s, k, r);
    hide Backs, Added;
    forall r | Listed(lists, r) ensures exists k: nat :: Backs(t, k, r) {
      if r != made {
        var k: nat :| Backs(s, k, r);
        assert k != |s.resources| by { BackedInside(s, k, r); }
        assert Backs(t, k, r);
      }
    }
  }

  lemma BackedInside(s: Store, k: nat, r: Response)
    requires Backs(s, k, r)
    ensures k < |s.resources|
  {
  }

  lemma LinkDropped(single: bool, b: Both, k: nat, gone: Response, lists: Lists)
    requires Inv(single, b.store) && Linked(b) && Backs(b.store, k, gone)
    requires forall r :: Listed(lists, r) <==> Listed(b.lists, r) && r != gone
    ensures Linked(Both(lists, Dropped(b.store, k)))
  {
    var s := b.store;
    var t := Dropped(s, k);
    forall k': nat, r ensures Backs(t, k', r) <==> Backs(s, k', r) && k' != k {
      if Backs(s, k', r) && k' != k {
        assert Marked(s, k).resources[k'].live;
      }
    }
    hide Dropped;
    forall r | Listed(lists, r) ensures exists k': nat :: Backs(t, k', r) {
      var k': nat :| Backs(s, k', r);
      assert k' != k by { SameBacking(s, k, k', gone, r); }
      assert Backs(t, k', r);
    }
    forall k': nat, r | Backs(t, k', r) ensures Listed(lists, r) {
      if r == gone {
        BackedOnce(single, s, k, k', r);
      }
    }
  }

  lemma SameBacking(s: Store, k: nat, k': nat, r: Response, r': Response)
    requires Backs(s, k, r) && Backs(s, k', r') && r != r'
    ensures k != k'
  {
  }

  lemma AllocKeepsLink(single: bool, b: Both, log: seq<Event>, c: Call)
    requires BothInv(single, b, log) && c.AllocCall?
    ensures Linked(Both(Perform(b.lists, OpOf(single, b, c)).lists, StoreAfter(single, b, c)))
  {
    var op := OpOf(single, b, c);
    var o := Perform(b.lists, op);
    AnswersAreFresh(single, b, log, c);
    forall r ensures Listed(o.lists, r) <==> (Listed(b.lists, r) || Created(r) in o.events) && Released(r) !in o.events {
      ListedAfter(b.lists, log, op, r);
    }
    NothingMade(single, b, c);
    hide Orderly, Balanced, Inv, Linked, Listed, LastMid, Added, FreshImpl, FindCrop, AllocOutcome;
    if CallsImpl(b.lists, c.q) && Accepted(single, c.q.frameSuggested, c.d) {
      var n, count := c.q.frameSuggested, TextureCount(single, c.q.frameSuggested);
      LinkAdded(single, b, n, c.d.made[..count], c.d.made[count..count + n], o.lists);
    } else {
      LinkSame(b, o.lists);
    }
  }

  /** A request makes what it lists, nothing else, and releases nothing. */
  lemma NothingMade(single: bool, b: Both, c: Call)
    requires c.AllocCall?
    ensures var events := Perform(b.lists, OpOf(single, b, c)).events;
            forall r :: Released(r) !in events &&
              (Created(r) in events <==> CallsImpl(b.lists, c.q) && Accepted(single, c.q.frameSuggested, c.d) &&
                                         r == Response(LastMid(b.store) + 1, c.q.frameSuggested))
  {
    hide LastMid, FindCrop;
  }

  lemma LinkSame(b: Both, lists: Lists)
    requires Linked(b) && forall r :: Listed(lists, r) <==> Listed(b.lists, r)
    ensures Linked(Both(lists, b.store))
  {
    hide Backs, Listed;
  }

  lemma FreeKeepsLink(single: bool, b: Both, log: seq<Event>, c: Call)
    requires BothInv(single, b, log) && c.FreeCall? && Sound(b.store, c.r.mid)
    ensures Linked(Both(Perform(b.lists, OpOf(single, b, c)).lists, StoreAfter(single, b, c)))
  {
    var op := OpOf(single, b, c);
    var o := Perform(b.lists, op);
    forall r ensures Listed(o.lists, r) <==> (Listed(b.lists, r) || Created(r) in o.events) && Released(r) !in o.events {
      ListedAfter(b.lists, log, op, r);
    }
    OneRelease(b.lists, op);
    LedgerFor(b.lists, log, c.r);
    ReleasedWithTheLast(b.lists, log, c.r, op.release);
    hide Orderly, Balanced, Inv, Listed, Dropped, Outstanding, Alive, Perform, OpOf;
    if Released(c.r) in o.events {
      var k: nat :| Backs(b.store, k, c.r);
      BackedByFirst(single, b.store, k, c.r);
      LinkDropped(single, b, k, c.r, o.lists);
    } else {
      LinkSame(b, o.lists);
    }
  }

  /** Handing back makes nothing, and releases nothing but what was handed back. */
  lemma OneRelease(s: Lists, op: Op)
    requires op.Free?
    ensures forall r :: Created(r) !in Perform(s, op).events && (Released(r) in Perform(s, op).events ==> r == op.r)
  {
    hide Without, FindBlock, FindInternal;
  }

  /** The step of the two classes together. */
  lemma CallKeeps(single: bool, b: Both, log: seq<Event>, c: Call)
    requires BothInv(single, b, log) && FreshCall(single, b, c) && (c.FreeCall? ==> Sound(b.store, c.r.mid))
    ensures var o := Perform(b.lists, OpOf(single, b, c));
            FreshImpl(b.lists, OpOf(single, b, c)) && BothInv(single, Both(o.lists, StoreAfter(single, b, c)), log + o.events)
  {
    AnswersAreFresh(single, b, log, c);
    PerformKeeps(b.lists, log, OpOf(single, b, c));
    if c.AllocCall? {
      AllocKeepsLink(single, b, log, c);
      if CallsImpl(b.lists, c.q) {
        AllocStoreKeeps(single, b.store, c.q.frameSuggested, c.d);
      }
    } else {
      FreeKeepsLink(single, b, log, c);
      ReleaseStoreKeeps(single, b.store, c.r);
    }
    hide Orderly, Balanced, Inv, Linked, Perform, FreshImpl, AllocStore, ReleaseStore;
  }

  /** One call to the allocator; the invariant makes every lookup sound. */
  function Next(single: bool, b: Both, c: Call): Both {
    if c.FreeCall? && !Sound(b.store, c.r.mid) then b
    else Both(Perform(b.lists, OpOf(single, b, c)).lists, StoreAfter(single, b, c))
  }

  function EventsOfCall(single: bool, b: Both, c: Call): seq<Event> {
    if c.FreeCall? && !Sound(b.store, c.r.mid) then [] else Perform(b.lists, OpOf(single, b, c)).events
  }

  function RunBoth(single: bool, b: Both, calls: seq<Call>): Both
    decreases |calls|
  {
    if calls == [] then b else RunBoth(single, Next(single, b, calls[0]), calls[1..])
  }

  function LogBoth(single: bool, b: Both, calls: seq<Call>): seq<Event>
    decreases |calls|
  {
    if calls == [] then [] else EventsOfCall(single, b, calls[0]) + LogBoth(single, Next(single, b, calls[0]), calls[1..])
  }

  /** A run in which the device gives textures that are not in use. */
  predicate FreshCalls(single: bool, b: Both, calls: seq<Call>)
    decreases |calls|
  {
    calls == [] || (FreshCall(single, b, calls[0]) && FreshCalls(single, Next(single, b, calls[0]), calls[1..]))
  }

  lemma NextKeeps(single: bool, b: Both, log: seq<Event>, c: Call)
    requires BothInv(single, b, log) && FreshCall(single, b, c)
    ensures BothInv(single, Next(single, b, c), log + EventsOfCall(single, b, c))
  {
    if c.FreeCall? {
      SoundLookup(single, b.store, c.r.mid);
    }
    CallKeeps(single, b, log, c);
    hide BothInv, Sound, OpOf, StoreAfter, Perform, FreshCall;
  }

  lemma {:induction false} RunBothKeeps(single: bool, b: Both, log: seq<Event>, calls: seq<Call>)
    requires BothInv(single, b, log) && FreshCalls(single, b, calls)
    ensures BothInv(single, RunBoth(single, b, calls), log + LogBoth(single, b, calls))
    decreases |calls|
  {
    hide BothInv, Next, EventsOfCall, FreshCall;
    if calls == [] {
      assert log + [] == log;
    } else {
      var c := calls[0];
      NextKeeps(single, b, log, c);
      RunBothKeeps(single, Next(single, b, c), log + EventsOfCall(single, b, c), calls[1..]);
      assert log + (EventsOfCall(single, b, c) + LogBoth(single, Next(single, b, c), calls[1..]))
          == log + EventsOfCall(single, b, c) + LogBoth(single, Next(single, b, c), calls[1..]);
    }
  }

  function Nothing(): Both { Both(Lists([], []), Store([], [])) }

  /**
   * The two classes together, over every run in which the device gives textures that are not in use: a response that
   * is listed has been made once more often than released, any other as often as released, and every handle of a
   * listed response leads to a texture.
   */
  lemma AllocatorsTogether(single: bool, calls: seq<Call>, r: Response, j: nat)
    requires FreshCalls(single, Nothing(), calls)
    ensures var b, log := RunBoth(single, Nothing(), calls), LogBoth(single, Nothing(), calls);
            && Orderly(b.lists) && Inv(single, b.store)
            && Alive(log, r) == (if Listed(b.lists, r) then 1 else 0)
            && (Listed(b.lists, r) && j < r.frames ==> Sound(b.store, r.mid + j) && Lookup(b.store, r.mid + j).Some?)
  {
    hide *;
    StartsBoth(single);
    RunBothKeeps(single, Nothing(), [], calls);
    var b, log := RunBoth(single, Nothing(), calls), LogBoth(single, Nothing(), calls);
    assert [] + log == log;
    BothTell(single, b, log, r, j);
  }

  lemma StartsBoth(single: bool)
    ensures BothInv(single, Nothing(), [])
  {
    StartBalanced();
    EmptyHandles();
    hide Handles, Orderly, Balanced;
  }

  /** What the invariant says of one response and one of its handles. */
  lemma BothTell(single: bool, b: Both, log: seq<Event>, r: Response, j: nat)
    requires BothInv(single, b, log)
    ensures Orderly(b.lists) && Inv(single, b.store) && Alive(log, r) == if Listed(b.lists, r) then 1 else 0
    ensures Listed(b.lists, r) && j < r.frames ==> Sound(b.store, r.mid + j) && Lookup(b.store, r.mid + j).Some?
  {
    hide Orderly, Balanced, Listed, Alive, Inv;
    LedgerFor(b.lists, log, r);
    if Listed(b.lists, r) && j < r.frames {
      var k: nat :| Backs(b.store, k, r);
      BackedResolves(single, b.store, k, r, j);
    }
  }

  lemma BackedResolves(single: bool, s: Store, k: nat, r: Response, j: nat)
    requires Inv(single, s) && Backs(s, k, r) && j < r.frames
    ensures Sound(s, r.mid + j) && Lookup(s, r.mid + j).Some?
  {
    LookupFindsIssuer(single, s, k, j);
    hide Lookup, Sound;
  }
}
