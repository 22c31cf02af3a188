/**
 * The icon registry and the markup-resolution rule of the `SvgIcon` component:
 * a process-wide map from icon name to SVG markup, bulk registration into it
 * (merging, or replacing after a reset), and the choice between a registered
 * icon and a trusted markup object together with its three errors.
 */
module SvgIcon {
  import opened Wrappers

  /** Icon name to SVG markup. */
  type IconMap = map<string, string>

  /** The object passed as `src`: a wrapper whose `trustedHTML` marks markup as safe. */
  datatype Src = Src(trustedHTML: Option<string>)

  /** The three errors resolution throws. */
  datatype ResolveError =
    | UnregisteredIcon(name: string)  // a name was given but no markup is registered for it
    | UntrustedResource              // a `src` was given without trusted markup
    | MissingSource                  // neither a name nor a `src`

  /** One call of `registerIcons(icons, {reset})`. */
  datatype Call = Call(icons: IconMap, reset: bool)

  // JavaScript truthiness, as the source's `if (name)`, `!iconRegistry[name]`
  // and `!src.trustedHTML` tests apply it to possibly-undefined strings.

  /** `name` is truthy: defined and not the empty string. */
  predicate NameGiven(name: Option<string>) {
    name.Some? && name.value != ""
  }

  /** `iconRegistry[name]` is truthy: present with non-empty markup. */
  predicate IsRegistered(reg: IconMap, name: string) {
    name in reg && reg[name] != ""
  }

  /** `src.trustedHTML` is truthy: defined and not the empty string. */
  predicate IsTrusted(src: Src) {
    src.trustedHTML.Some? && src.trustedHTML.value != ""
  }

  /**
   * The registry after `registerIcons(icons, {reset})`: a reset first empties it,
   * then every entry of `icons` is copied in, overwriting entries of the same name.
   */
  function AfterRegister(reg: IconMap, icons: IconMap, reset: bool): (r: IconMap)
    ensures r.Keys == icons.Keys + (if reset then {} else reg.Keys)
    ensures forall k :: k in icons ==> r[k] == icons[k]
    ensures forall k :: k in r && k !in icons ==> !reset && r[k] == reg[k]
  {
    (if reset then map[] else reg) + icons
  }

  /** The registry after a sequence of registrations, starting from the empty map. */
  ghost function Replay(calls: seq<Call>): (r: IconMap)
    // the latest registration's entries are all present, with its markup
    ensures |calls| > 0 ==> forall k :: k in calls[|calls| - 1].icons ==> k in r && r[k] == calls[|calls| - 1].icons[k]
    decreases |calls|
  {
    if |calls| == 0 then map[]
    else
      var last := calls[|calls| - 1];
      AfterRegister(Replay(calls[..|calls| - 1]), last.icons, last.reset)
  }

  /**
   * The markup `SvgIcon` renders, or the error it throws. A truthy name wins:
   * it is looked up in the registry whatever `src` is. Otherwise a `src` must
   * carry non-empty `trustedHTML`. With neither, resolution fails.
   */
  function Resolve(reg: IconMap, name: Option<string>, src: Option<Src>): (r: Result<string, ResolveError>)
    ensures r.Failure? && r.error.UnregisteredIcon? <==> NameGiven(name) && !IsRegistered(reg, name.value)
    ensures r.Failure? && r.error.UnregisteredIcon? ==> r.error.name == name.value
    ensures r == Failure(UntrustedResource) <==> !NameGiven(name) && src.Some? && !IsTrusted(src.value)
    ensures r == Failure(MissingSource) <==> !NameGiven(name) && src.None?
    ensures r.Success? && NameGiven(name) ==> name.value in reg && r.value == reg[name.value]
    ensures r.Success? && !NameGiven(name) ==> src.Some? && src.value.trustedHTML == Some(r.value)
    // only vetted markup is ever returned, and never the empty string
    ensures r.Success? ==> r.value != "" && (r.value in reg.Values || (src.Some? && src.value.trustedHTML == Some(r.value)))
  {
    if NameGiven(name) then
      if !IsRegistered(reg, name.value) then Failure(UnregisteredIcon(name.value))
      else Success(reg[name.value])
    else if src.Some? then
      if !IsTrusted(src.value) then Failure(UntrustedResource)
      else Success(src.value.trustedHTML.value)
    else
      Failure(MissingSource)
  }

  // ---------------------------------------------------------------------------
  // Registration

  /** Registering the same icons twice, with the same reset flag, is the same as registering them once. */
  lemma RegisterIdempotent(reg: IconMap, icons: IconMap, reset: bool)
    ensures AfterRegister(AfterRegister(reg, icons, reset), icons, reset) == AfterRegister(reg, icons, reset)
  {
  }

  /** A merging registration leaves the registry as it was exactly when every new entry is already there with the same markup. */
  lemma MergeIsNoOpIffIncluded(reg: IconMap, icons: IconMap)
    ensures AfterRegister(reg, icons, false) == reg <==> (forall k :: k in icons ==> k in reg && reg[k] == icons[k])
  {
  }

  /**
   * Last writer wins: an entry stays as the latest registration that wrote it
   * left it, as long as no later call resets the registry or writes the same name.
   */
  lemma {:induction false} LastWriterWins(calls: seq<Call>, i: nat, k: string)
    requires i < |calls| && k in calls[i].icons
    requires forall j :: i < j < |calls| ==> !calls[j].reset && k !in calls[j].icons
    ensures k in Replay(calls) && Replay(calls)[k] == calls[i].icons[k]
  {
    var n := |calls| - 1;
    var init := calls[..n];
    if i < n {
      forall j | i < j < |init| ensures !init[j].reset && k !in init[j].icons {
        assert init[j] == calls[j];
      }
      LastWriterWins(init, i, k);
      assert !calls[n].reset && k !in calls[n].icons;
    }
  }

  /** Every entry of the registry was written by some registration: no markup appears from nowhere. */
  lemma {:induction false} ReplayProvenance(calls: seq<Call>, k: string)
    requires k in Replay(calls)
    ensures exists i :: 0 <= i < |calls| && k in calls[i].icons && calls[i].icons[k] == Replay(calls)[k]
    decreases |calls|
  {
    var n := |calls| - 1;
    var init := calls[..n];
    if k in calls[n].icons {
      assert 0 <= n < |calls| && k in calls[n].icons && calls[n].icons[k] == Replay(calls)[k];
    } else {
      assert k in Replay(init) && Replay(calls)[k] == Replay(init)[k];
      ReplayProvenance(init, k);
      var i :| 0 <= i < |init| && k in init[i].icons && init[i].icons[k] == Replay(init)[k];
      assert init[i] == calls[i];
    }
  }

  /** A registration with reset makes everything registered before it irrelevant. */
  lemma {:induction false} ResetForgetsEarlier(before: seq<Call>, c: Call, after: seq<Call>)
    requires c.reset
    ensures Replay(before + [c] + after) == Replay([c] + after)
    decreases |after|
  {
    var whole := before + [c] + after;
    var tail := [c] + after;
    if |after| == 0 {
      assert whole[..|whole| - 1] == before;
      assert tail[..|tail| - 1] == [];
      assert Replay(whole) == c.icons == Replay(tail);
    } else {
      var m := |after| - 1;
      var d := after[m];
      assert whole[|whole| - 1] == d && tail[|tail| - 1] == d;
      assert whole[..|whole| - 1] == before + [c] + after[..m];
      assert tail[..|tail| - 1] == [c] + after[..m];
      ResetForgetsEarlier(before, c, after[..m]);
      assert Replay(whole) == AfterRegister(Replay(before + [c] + after[..m]), d.icons, d.reset);
      assert Replay(tail) == AfterRegister(Replay([c] + after[..m]), d.icons, d.reset);
    }
  }

  /** After a reset with `icons` and no other call, the registry is exactly `icons`. */
  lemma ResetThenNothing(before: seq<Call>, icons: IconMap)
    ensures Replay(before + [Call(icons, true)]) == icons
  {
  }

  // ---------------------------------------------------------------------------
  // Resolution

  /** With a truthy name the `src` argument plays no part: the name takes precedence. */
  lemma NameTakesPrecedence(reg: IconMap, name: Option<string>, src1: Option<Src>, src2: Option<Src>)
    requires NameGiven(name)
    ensures Resolve(reg, name, src1) == Resolve(reg, name, src2)
  {
  }

  /** Every entry of a registration with non-empty markup resolves to that markup afterwards. */
  lemma ResolveAfterRegister(reg: IconMap, icons: IconMap, reset: bool, name: string, src: Option<Src>)
    requires name != "" && name in icons && icons[name] != ""
    ensures Resolve(AfterRegister(reg, icons, reset), Some(name), src) == Success(icons[name])
  {
  }

  /** After a reset, a name the new icons do not contain is no longer registered, whatever was there before. */
  lemma ResetUnregisters(reg: IconMap, icons: IconMap, name: string, src: Option<Src>)
    requires name != "" && name !in icons
    ensures Resolve(AfterRegister(reg, icons, true), Some(name), src) == Failure(UnregisteredIcon(name))
  {
  }

  // ---------------------------------------------------------------------------
  // The process-wide registry

  /**
   * The module-level `iconRegistry`. The ghost `history` records every
   * registration since start-up; the object invariant says the map is what
   * those registrations produce from the empty map.
   */
  class IconRegistry {
    var icons: IconMap
    ghost var history: seq<Call>

    ghost predicate Valid()
      reads this
    {
      icons == Replay(history)
    }

    /** The registry starts empty. */
    constructor ()
      ensures Valid() && history == [] && icons == map[]
    {
      icons := map[];
      history := [];
    }

    /** `availableIcons()`: the current map, i.e. the result of every registration so far. */
    function AvailableIcons(): (r: IconMap)
      reads this
      requires Valid()
      ensures r == Replay(history)
    {
      icons
    }

    /** `registerIcons(newIcons, {reset})`. */
    method Register(newIcons: IconMap, reset: bool)
      requires Valid()
      modifies this
      ensures Valid()
      ensures history == old(history) + [Call(newIcons, reset)]
      ensures icons == AfterRegister(old(icons), newIcons, reset)
    {
      if reset {
        icons := map[];
      }
      icons := icons + newIcons;
      history := history + [Call(newIcons, reset)];
      assert history[..|history| - 1] == old(history);
    }

    /**
     * The resolution branch of `SvgIcon`, reading the registry. It declares no
     * `modifies`, so resolving leaves the registry untouched.
     */
    method ResolveIcon(name: Option<string>, src: Option<Src>) returns (r: Result<string, ResolveError>)
      requires Valid()
      ensures r == Resolve(AvailableIcons(), name, src)
    {
      r := Resolve(icons, name, src);
    }
  }

  /** A sample session: register an icon, resolve it and an unknown name, then reset. */
  method ExampleSession() {
    var registry := new IconRegistry();
    registry.Register(map["star" := "<svg>...</svg>"], false);
    var star := registry.ResolveIcon(Some("star"), None);
    assert star == Success("<svg>...</svg>");
    var heart := registry.ResolveIcon(Some("heart"), None);
    assert heart == Failure(UnregisteredIcon("heart"));
    registry.Register(map["heart" := "<svg>H</svg>"], true);
    assert registry.AvailableIcons() == map["heart" := "<svg>H</svg>"];
    var starAgain := registry.ResolveIcon(Some("star"), None);
    assert starAgain == Failure(UnregisteredIcon("star"));
  }
}
