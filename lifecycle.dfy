/**
 * The AVIF lifecycle of the AutoAvif module as values: the configuration-dependent
 * hook registration, the admin-thumbnail guard, what each hook does to the
 * module's state (the attempt flag, the save-ready closures registered so far and
 * the set of files on disk), the backfill decision, the files each deletion hook
 * removes, and whole `size()` requests with the forced passes the backfill issues.
 */
module Lifecycle {
  import opened Wrappers
  import opened PhpStrings
  import opened AvifNames

  /** The dimension of the thumbnails the page editor asks for. */
  const ADMIN_THUMB_SIZE := 260
  const DEFAULT_QUALITY := 70
  const DEFAULT_SPEED := 6

  /** A value in a `size()` options array. */
  datatype OptValue = BoolOpt(b: bool) | IntOpt(i: int) | StrOpt(s: string)
  type Options = map<string, OptValue>

  /** The hookable `allowAvif(pageimage, width, height, options)`. */
  type AllowPolicy = (Pageimage, int, int, Options) -> bool

  /** A configuration value as PHP holds it; `enableAvif` is compared with `!== false`. */
  datatype PhpValue = Null | Bool(b: bool) | Int(i: int) | Str(s: string)

  /** Which of the module's hooks `ready()` installs. */
  datatype Registration = Registration(beforeSize: bool, beforeDelete: bool, beforeVariations: bool, afterSize: bool)

  /** The encoding engine in use, whether GD has `imageavif`, and whether the encoder wrote its file. */
  datatype Engine = GD | IMagick
  datatype Encoder = Encoder(engine: Engine, gdAvif: bool, ok: bool)

  /**
   * The module's state: the flag `avifCreated`, the pagefiles directory captured by
   * each pair of save-ready closures registered so far, and the files on disk.
   */
  datatype State = State(avifCreated: bool, handlers: seq<string>, files: set<string>)

  /** The `size(width, height, options)` call that the backfill issues on an original. */
  datatype SizeCall = SizeCall(image: Pageimage, width: int, height: int, options: Options)

  /** The after-size outcome: nothing, one forced call, or a call on a null original (a PHP error). */
  datatype Backfill = NoCall | Call(call: SizeCall) | NoOriginal

  /**
   * `ready()`: the three creation and deletion hooks are installed unless
   * `enableAvif` is exactly `false`; the backfill hook only when, in addition,
   * `createForExisting` is set, so backfill never runs without the creation hook.
   */
  function Ready(enableAvif: PhpValue, createForExisting: int): (r: Registration)
    ensures r.beforeSize <==> enableAvif != Bool(false)
    ensures r.beforeDelete == r.beforeSize && r.beforeVariations == r.beforeSize
    ensures r.afterSize ==> r.beforeSize
    ensures r.afterSize <==> enableAvif != Bool(false) && createForExisting != 0
  {
    var on := enableAvif != Bool(false);
    Registration(on, on, on, on && createForExisting != 0)
  }

  /** In the admin, a request with either dimension equal to 260 is a page-editor thumbnail. */
  predicate IsAdminThumbnail(admin: bool, width: int, height: int)
  {
    admin && (width == ADMIN_THUMB_SIZE || height == ADMIN_THUMB_SIZE)
  }

  /** The default `___allowAvif` accepts every variation. */
  function DefaultAllowAvif(image: Pageimage, width: int, height: int, options: Options): (r: bool)
    ensures r
  {
    true
  }

  /** `$options ?: []`: a missing options argument is the empty array. */
  function Normalize(raw: Option<Options>): Options
  {
    match raw
    case None => map[]
    case Some(m) => m
  }

  /** The options of the forced pass: the caller's options with `forceNew` and `noDelay` set. */
  function ForcedOptions(raw: Option<Options>): (r: Options)
    ensures r.Keys == Normalize(raw).Keys + {"forceNew", "noDelay"}
    ensures r["forceNew"] == BoolOpt(true) && r["noDelay"] == BoolOpt(true)
    ensures forall k :: k in Normalize(raw) && k != "forceNew" && k != "noDelay" ==> r[k] == Normalize(raw)[k]
  {
    Normalize(raw)["forceNew" := BoolOpt(true)]["noDelay" := BoolOpt(true)]
  }

  /** Forcing options that are already forced changes nothing. */
  lemma ForcedOptionsIdempotent(raw: Option<Options>)
    ensures ForcedOptions(Some(ForcedOptions(raw))) == ForcedOptions(raw)
  {
    var f := ForcedOptions(raw);
    var g := ForcedOptions(Some(f));
    assert g.Keys == f.Keys;
    forall k | k in f
      ensures g[k] == f[k]
    {
    }
  }

  /** The encoder can write: Imagick always tries, GD only with `imageavif`. */
  predicate CanEncode(enc: Encoder)
  {
    enc.engine == IMagick || enc.gdAvif
  }

  /**
   * A failing Imagick encode throws (`setImageFormat('avif')` or `writeImage`),
   * after the stale sibling is unlinked; a failing `imageavif` only returns false.
   */
  predicate Throws(enc: Encoder)
  {
    enc.engine == IMagick && !enc.ok
  }

  /** The sibling paths the registered closures derive from one save filename. */
  function Siblings(dirs: seq<string>, saveFilename: string): set<string>
  {
    set d | d in dirs :: CreationSibling(d, saveFilename)
  }

  /** One more closure adds its sibling to those of the closures before it. */
  lemma SiblingsStep(dirs: seq<string>, i: nat, saveFilename: string)
    requires i < |dirs|
    ensures Siblings(dirs[..i + 1], saveFilename) == Siblings(dirs[..i], saveFilename) + {CreationSibling(dirs[i], saveFilename)}
  {
    assert dirs[..i + 1] == dirs[..i] + [dirs[i]];
    assert forall e :: e in dirs[..i + 1] <==> e in dirs[..i] || e == dirs[i];
  }

  /**
   * The before-size hook as written: past the thumbnail guard and `allowAvif`,
   * it resets the flag and registers one more pair of save-ready closures
   * capturing the image's directory; the closures stay registered.
   */
  function BeforeSize(s: State, image: Pageimage, width: int, height: int, admin: bool, allowed: bool): (r: State)
    ensures r.files == s.files
    ensures r == s || (r.handlers == s.handlers + [image.dir] && !r.avifCreated)
    ensures r == s <==> IsAdminThumbnail(admin, width, height) || !allowed
  {
    if IsAdminThumbnail(admin, width, height) || !allowed then s
    else State(false, s.handlers + [image.dir], s.files)
  }

  /**
   * The closures that run on one save-ready notification: all of them in the
   * order they were registered, except that a throwing Imagick encode ends the
   * run after the first one.
   */
  function RunClosures(handlers: seq<string>, enc: Encoder): (r: seq<string>)
    ensures forall d :: d in r ==> d in handlers
    ensures Throws(enc) && |handlers| > 0 ==> r == [handlers[0]]
    ensures !Throws(enc) ==> r == handlers
  {
    if Throws(enc) && |handlers| > 0 then handlers[..1] else handlers
  }

  /**
   * The engine's save-ready notification as written: the closures that run set
   * the flag and, when the encoder can write, each removes a stale sibling and
   * writes a fresh one (when the encoder succeeds).
   */
  function SaveReady(s: State, enc: Encoder, saveFilename: string): State
  {
    State(s.avifCreated || s.handlers != [], s.handlers,
          AfterEncode(s.files, enc, Siblings(RunClosures(s.handlers, enc), saveFilename)))
  }

  /**
   * The files after the closures aiming at `targets` have run: untouched when GD
   * lacks `imageavif`, otherwise each target unlinked and written anew, which
   * leaves it on disk exactly when the encode succeeds.
   */
  function AfterEncode(files: set<string>, enc: Encoder, targets: set<string>): set<string>
  {
    if !CanEncode(enc) then files
    else if enc.ok then files + targets
    else files - targets
  }

  /** Running the closures for `a` and then for `b` is running them for both. */
  lemma AfterEncodeUnion(files: set<string>, enc: Encoder, a: set<string>, b: set<string>)
    ensures AfterEncode(AfterEncode(files, enc, a), enc, b) == AfterEncode(files, enc, a + b)
  {
  }

  /**
   * What one save-ready notification does: the closures stay registered, the
   * flag is set once any closure exists, GD without `imageavif` leaves the files
   * alone, a working encoder leaves every closure's sibling present exactly when
   * it succeeds, a throwing Imagick encode removes only the first closure's
   * sibling, and paths that are no closure's sibling keep their state.
   */
  lemma SaveReadyEffect(s: State, enc: Encoder, saveFilename: string)
    ensures var r := SaveReady(s, enc, saveFilename);
      && r.handlers == s.handlers
      && (r.avifCreated <==> s.avifCreated || |s.handlers| > 0)
      && (!CanEncode(enc) ==> r.files == s.files)
      && (CanEncode(enc) && !Throws(enc) ==>
            forall d :: d in s.handlers ==> (CreationSibling(d, saveFilename) in r.files <==> enc.ok))
      && (Throws(enc) && |s.handlers| > 0 ==> r.files == s.files - {CreationSibling(s.handlers[0], saveFilename)})
      && (forall p :: p !in Siblings(s.handlers, saveFilename) ==> (p in r.files <==> p in s.files))
  {
    var ran := RunClosures(s.handlers, enc);
    if Throws(enc) && |s.handlers| > 0 {
      assert Siblings(ran, saveFilename) == {CreationSibling(s.handlers[0], saveFilename)};
    }
  }

  /**
   * The after-size hook: a forced call on the original is issued exactly when the
   * request is not an admin thumbnail, no encode was attempted and the sibling
   * named by `getAvifFilename` is not on disk; it keeps width, height and every
   * option, and adds `forceNew` and `noDelay`.
   */
  function AfterSize(s: State, variation: Pageimage, width: int, height: int, options: Option<Options>, admin: bool): (r: Backfill)
    ensures r.Call? <==> !IsAdminThumbnail(admin, width, height) && !s.avifCreated
                         && GetAvifFilename(variation) !in s.files && variation.original.Some?
    ensures r.NoOriginal? <==> !IsAdminThumbnail(admin, width, height) && !s.avifCreated
                               && GetAvifFilename(variation) !in s.files && variation.original.None?
    ensures r.Call? ==> r.call == SizeCall(variation.original.value, width, height, ForcedOptions(options))
  {
    if IsAdminThumbnail(admin, width, height) || s.avifCreated || GetAvifFilename(variation) in s.files then NoCall
    else
      match variation.original
      case None => NoOriginal
      case Some(o) => Call(SizeCall(o, width, height, ForcedOptions(options)))
  }

  /** Before the resize, an admin thumbnail leaves the state alone, whatever the policy says. */
  lemma ThumbnailSkipsBeforeHook(s: State, image: Pageimage, width: int, height: int, allowed: bool)
    requires IsAdminThumbnail(true, width, height)
    ensures BeforeSize(s, image, width, height, true, allowed) == s
    ensures BeforeSizeOneShot(s, image, width, height, true, allowed).handlers == []
  {
  }

  /** After the resize, an admin thumbnail issues no forced call, whatever the state. */
  lemma ThumbnailSkipsAfterHook(s: State, variation: Pageimage, width: int, height: int, options: Option<Options>)
    requires IsAdminThumbnail(true, width, height)
    ensures AfterSize(s, variation, width, height, options, true) == NoCall
  {
  }

  /** A refused variation registers nothing and keeps the previous flag. */
  lemma RefusedRegistersNothing(s: State, image: Pageimage, width: int, height: int, admin: bool)
    ensures BeforeSize(s, image, width, height, admin, false) == s
  {
  }

  /**
   * One eligible creation event with a working encoder leaves the variation's
   * sibling on disk, at the path `getAvifFilename` later looks for.
   */
  lemma CreationWritesDeletionPath(s: State, image: Pageimage, v: Pageimage, stem: string,
                                   width: int, height: int, admin: bool, enc: Encoder, saveFilename: string)
    requires !IsAdminThumbnail(admin, width, height)
    requires v.dir == image.dir
    requires v.dir == [] || v.dir[|v.dir| - 1] == '/'
    requires v.basename == stem + "." + v.ext
    requires '/' !in v.basename && '.' !in v.ext
    requires forall i: nat :: OccursAt(Filename(v), "." + v.ext, i) ==> i == |v.dir| + |stem|
    requires Basename(saveFilename) == v.basename
    requires CanEncode(enc) && enc.ok
    ensures var r := SaveReady(BeforeSize(s, image, width, height, admin, true), enc, saveFilename);
      r.avifCreated && GetAvifFilename(v) in r.files
  {
    var s1 := BeforeSize(s, image, width, height, admin, true);
    assert image.dir in s1.handlers;
    RulesAgree(v, stem, saveFilename);
  }

  // ---------------------------------------------------------------------------
  // Finding 1: the save-ready closures are never unregistered.

  /**
   * As written, a closure registered by an earlier request still fires for a
   * page-editor thumbnail, which the guard meant to exclude: the thumbnail gets
   * an AVIF sibling in the earlier request's directory.
   */
  lemma StaleHandlerEncodesThumbnail(s: State, image: Pageimage, width: int, height: int, allowed: bool,
                                     enc: Encoder, saveFilename: string)
    requires IsAdminThumbnail(true, width, height)
    requires |s.handlers| > 0 && CanEncode(enc) && enc.ok
    ensures var r := SaveReady(BeforeSize(s, image, width, height, true, allowed), enc, saveFilename);
      r.avifCreated && CreationSibling(s.handlers[0], saveFilename) in r.files
  {
    assert s.handlers[0] in s.handlers;
  }

  /**
   * As written, after two eligible requests on images in different directories,
   * the next save-ready notification writes two siblings: one of them in a
   * directory that is not the resized image's.
   */
  lemma StaleHandlersWriteTwoSiblings(s: State, first: Pageimage, second: Pageimage, width: int, height: int,
                                      admin: bool, enc: Encoder, saveFilename: string)
    requires !IsAdminThumbnail(admin, width, height)
    requires first.dir != second.dir
    requires CanEncode(enc) && enc.ok
    ensures var r := SaveReady(BeforeSize(BeforeSize(s, first, width, height, admin, true),
                                          second, width, height, admin, true), enc, saveFilename);
      CreationSibling(first.dir, saveFilename) in r.files
      && CreationSibling(second.dir, saveFilename) in r.files
      && CreationSibling(first.dir, saveFilename) != CreationSibling(second.dir, saveFilename)
  {
    var s2 := BeforeSize(BeforeSize(s, first, width, height, admin, true), second, width, height, admin, true);
    assert first.dir in s2.handlers && second.dir in s2.handlers;
    CreationSiblingsDistinct(first.dir, second.dir, saveFilename);
  }

  /** Corrected before-size hook: only this request's closure is registered, or none. */
  function BeforeSizeOneShot(s: State, image: Pageimage, width: int, height: int, admin: bool, allowed: bool): State
  {
    if IsAdminThumbnail(admin, width, height) || !allowed then s.(handlers := [])
    else State(false, [image.dir], s.files)
  }

  /** Corrected save-ready notification: the closures fire once and are removed. */
  function SaveReadyOneShot(s: State, enc: Encoder, saveFilename: string): State
  {
    SaveReady(s, enc, saveFilename).(handlers := [])
  }

  /**
   * With one-shot closures, a creation event touches at most the sibling of the
   * image being resized, in that image's directory, and none for a thumbnail or a
   * refused variation; no closure outlives the event.
   */
  lemma OneShotWritesOnlyOwnSibling(s: State, image: Pageimage, width: int, height: int, admin: bool,
                                    allowed: bool, enc: Encoder, saveFilename: string)
    ensures var r := SaveReadyOneShot(BeforeSizeOneShot(s, image, width, height, admin, allowed), enc, saveFilename);
      var own := CreationSibling(image.dir, saveFilename);
      && r.handlers == []
      && (forall p :: p != own ==> (p in r.files <==> p in s.files))
      && (IsAdminThumbnail(admin, width, height) || !allowed ==> r.files == s.files)
      && (!IsAdminThumbnail(admin, width, height) && allowed ==> r.avifCreated)
      && (!IsAdminThumbnail(admin, width, height) && allowed && CanEncode(enc) && enc.ok ==> own in r.files)
  {
    var s1 := BeforeSizeOneShot(s, image, width, height, admin, allowed);
    var own := CreationSibling(image.dir, saveFilename);
    if IsAdminThumbnail(admin, width, height) || !allowed {
      assert Siblings(s1.handlers, saveFilename) == {};
    } else {
      assert Siblings(s1.handlers, saveFilename) == {own};
    }
  }

  // ---------------------------------------------------------------------------
  // Whole size() requests and the forced passes of the backfill.

  /** What the host's resizer does for one `size()` call: the variation, the file it saves, whether it resized. */
  datatype Resize = Resize(variation: Pageimage, saveFilename: string, resized: bool)

  /** Hook registration, admin context and encoder of one web request. */
  datatype Env = Env(hooks: Registration, admin: bool, enc: Encoder)

  /** One `size()` call as written: before hook, the resize (if any), after hook. */
  function RequestAsWritten(s: State, allow: AllowPolicy, env: Env, image: Pageimage, width: int, height: int,
                            options: Option<Options>, out: Resize): (State, Backfill)
  {
    var opts := Normalize(options);
    var s1 := if env.hooks.beforeSize
              then BeforeSize(s, image, width, height, env.admin, allow(image, width, height, opts)) else s;
    var s2 := if out.resized then SaveReady(s1, env.enc, out.saveFilename) else s1;
    (s2, if env.hooks.afterSize then AfterSize(s2, out.variation, width, height, options, env.admin) else NoCall)
  }

  /**
   * The number of forced passes, up to `fuel`, that one `size()` call sets off as
   * written; `out` is what the resizer does for the call itself and `forced` what
   * it does for every forced pass.
   */
  function ChainAsWritten(s: State, allow: AllowPolicy, env: Env, image: Pageimage, width: int, height: int,
                          options: Option<Options>, out: Resize, forced: Resize, fuel: nat): (r: nat)
    ensures r <= fuel
    decreases fuel
  {
    if fuel == 0 then 0
    else
      var (s', b) := RequestAsWritten(s, allow, env, image, width, height, options, out);
      if b.Call? then
        1 + ChainAsWritten(s', allow, env, b.call.image, b.call.width, b.call.height, Some(b.call.options),
                           forced, forced, fuel - 1)
      else 0
  }

  /**
   * Finding 2, as written: the after hook does not consult `allowAvif`. When the
   * variation is refused, no closure is registered, so the flag stays false and no
   * sibling appears; every forced pass then issues the same forced pass again and
   * the recursion exceeds every bound.
   */
  lemma {:induction false} BackfillRecursesWhenRefused(s: State, allow: AllowPolicy, env: Env, image: Pageimage,
                                                       width: int, height: int, options: Option<Options>,
                                                       out: Resize, forced: Resize, fuel: nat)
    requires env.hooks.afterSize
    requires !IsAdminThumbnail(env.admin, width, height)
    requires !s.avifCreated && s.handlers == []
    requires out.variation.original == Some(image) && forced.variation == out.variation
    requires GetAvifFilename(out.variation) !in s.files
    requires !allow(image, width, height, Normalize(options)) && !allow(image, width, height, ForcedOptions(options))
    ensures ChainAsWritten(s, allow, env, image, width, height, options, out, forced, fuel) == fuel
    decreases fuel
  {
    if fuel > 0 {
      var f := ForcedOptions(options);
      var s1 := if env.hooks.beforeSize
                then BeforeSize(s, image, width, height, env.admin, allow(image, width, height, Normalize(options)))
                else s;
      assert s1 == s;
      var s2 := if out.resized then SaveReady(s1, env.enc, out.saveFilename) else s1;
      assert Siblings(RunClosures(s.handlers, env.enc), out.saveFilename) == {};
      assert s2 == s;
      ForcedOptionsIdempotent(options);
      assert Normalize(Some(f)) == f;
      BackfillRecursesWhenRefused(s, allow, env, image, width, height, Some(f), forced, forced, fuel - 1);
    }
  }

  /**
   * The backfill as written, with a policy that accepts everything (the shipped
   * `___allowAvif`) and forced passes that resize: a `size()` call sets off at most
   * one forced pass, and exactly one when its after hook issues a call.
   */
  lemma AsWrittenAcceptedAtMostOne(s: State, allow: AllowPolicy, env: Env, image: Pageimage, width: int, height: int,
                                   options: Option<Options>, out: Resize, forced: Resize, fuel: nat,
                                   enableAvif: PhpValue, createForExisting: int)
    requires env.hooks == Ready(enableAvif, createForExisting)
    requires forall i, w, h, o :: allow(i, w, h, o)
    requires forced.resized
    ensures ChainAsWritten(s, allow, env, image, width, height, options, out, forced, fuel) <= 1
    ensures fuel > 0 && RequestAsWritten(s, allow, env, image, width, height, options, out).1.Call? ==>
              ChainAsWritten(s, allow, env, image, width, height, options, out, forced, fuel) == 1
  {
    if fuel > 0 {
      var (s', b) := RequestAsWritten(s, allow, env, image, width, height, options, out);
      if b.Call? {
        var c := b.call;
        var (s'', b') := RequestAsWritten(s', allow, env, c.image, c.width, c.height, Some(c.options), forced);
        if !IsAdminThumbnail(env.admin, c.width, c.height) {
          var s1 := BeforeSize(s', c.image, c.width, c.height, env.admin, true);
          assert |s1.handlers| > 0;
          assert s''.avifCreated;
        }
        assert !b'.Call?;
      }
    }
  }

  /**
   * Corrected after-size hook: a refused variation is not backfilled, and neither
   * is a forced pass, whose resize already gave the closures their chance.
   */
  function AfterSizeEligible(s: State, allow: AllowPolicy, variation: Pageimage, width: int, height: int,
                             options: Option<Options>, admin: bool): (r: Backfill)
    ensures r.Call? ==> AfterSize(s, variation, width, height, options, admin) == r
    ensures r.Call? <==> (AfterSize(s, variation, width, height, options, admin).Call?
                          && !ForcedPass(options)
                          && allow(variation.original.value, width, height, Normalize(options)))
    ensures !r.Call? ==> r == NoCall || r == AfterSize(s, variation, width, height, options, admin)
  {
    match AfterSize(s, variation, width, height, options, admin)
    case Call(c) => if !ForcedPass(options) && allow(c.image, width, height, Normalize(options)) then Call(c) else NoCall
    case other => other
  }

  /** The options mark a forced pass: `forceNew` is set to true. */
  predicate ForcedPass(options: Option<Options>)
  {
    "forceNew" in Normalize(options) && Normalize(options)["forceNew"] == BoolOpt(true)
  }

  /** One `size()` call with both corrections. */
  function Request(s: State, allow: AllowPolicy, env: Env, image: Pageimage, width: int, height: int,
                   options: Option<Options>, out: Resize): (State, Backfill)
  {
    var opts := Normalize(options);
    var s1 := if env.hooks.beforeSize
              then BeforeSizeOneShot(s, image, width, height, env.admin, allow(image, width, height, opts)) else s;
    var s2 := if out.resized then SaveReadyOneShot(s1, env.enc, out.saveFilename) else s1;
    (s2, if env.hooks.afterSize then AfterSizeEligible(s2, allow, out.variation, width, height, options, env.admin)
         else NoCall)
  }

  /** The number of forced passes, up to `fuel`, that one corrected `size()` call sets off. */
  function Chain(s: State, allow: AllowPolicy, env: Env, image: Pageimage, width: int, height: int,
                 options: Option<Options>, out: Resize, forced: Resize, fuel: nat): (r: nat)
    ensures r <= fuel
    decreases fuel
  {
    if fuel == 0 then 0
    else
      var (s', b) := Request(s, allow, env, image, width, height, options, out);
      if b.Call? then
        1 + Chain(s', allow, env, b.call.image, b.call.width, b.call.height, Some(b.call.options),
                  forced, forced, fuel - 1)
      else 0
  }

  /**
   * With both corrections and the hooks `ready()` installs, a forced pass never
   * issues another one, whatever the resizer does on it: a `size()` call costs at
   * most one regeneration, exactly one when its after hook asks for it, and none
   * when backfill is off.
   */
  lemma ForcedPassEndsBackfill(s: State, allow: AllowPolicy, env: Env, image: Pageimage, width: int, height: int,
                               options: Option<Options>, out: Resize, forced: Resize, fuel: nat,
                               enableAvif: PhpValue, createForExisting: int)
    requires env.hooks == Ready(enableAvif, createForExisting)
    ensures Chain(s, allow, env, image, width, height, options, out, forced, fuel) <= 1
    ensures fuel > 0 && Request(s, allow, env, image, width, height, options, out).1.Call? ==>
              Chain(s, allow, env, image, width, height, options, out, forced, fuel) == 1
    ensures !env.hooks.afterSize ==> Chain(s, allow, env, image, width, height, options, out, forced, fuel) == 0
  {
    if fuel > 0 {
      var (s', b) := Request(s, allow, env, image, width, height, options, out);
      if b.Call? {
        var f := b.call.options;
        assert f == ForcedOptions(options);
        assert Normalize(Some(f)) == f;
        assert ForcedPass(Some(f));
        var (s'', b') := Request(s', allow, env, b.call.image, b.call.width, b.call.height, Some(f), forced);
        assert !b'.Call?;
      }
    }
  }

  // ---------------------------------------------------------------------------
  // Deletion.

  /** The siblings `getAvifFilename` names for a list of variations. */
  function VariationSiblings(variations: seq<Pageimage>): set<string>
  {
    set v | v in variations :: GetAvifFilename(v)
  }

  /** The posted `delete` value: absent, a scalar, or an array of basenames. */
  datatype PostValue = NotPosted | PostScalar(value: string) | PostArray(items: seq<string>)

  /**
   * The siblings the variations page deletes: for a non-empty posted array, those
   * of the posted basenames that name an existing variation; otherwise none.
   */
  function SelectedSiblings(delete: PostValue, variations: map<string, Pageimage>): (r: set<string>)
    ensures !(delete.PostArray? && |delete.items| > 0) ==> r == {}
    ensures forall b :: delete.PostArray? && b in delete.items && b in variations ==> GetAvifFilename(variations[b]) in r
    ensures forall p :: p in r ==>
      exists b :: delete.PostArray? && b in delete.items && b in variations && p == GetAvifFilename(variations[b])
  {
    if delete.PostArray? && |delete.items| > 0
    then set b | b in delete.items && b in variations :: GetAvifFilename(variations[b])
    else {}
  }

  /** A posted basename that names no variation changes nothing. */
  lemma UnresolvedBasenameSkipped(items: seq<string>, b: string, variations: map<string, Pageimage>)
    requires b !in variations
    ensures SelectedSiblings(PostArray(items + [b]), variations) == SelectedSiblings(PostArray(items), variations)
  {
    var with := SelectedSiblings(PostArray(items + [b]), variations);
    var without := SelectedSiblings(PostArray(items), variations);
    forall p | p in with
      ensures p in without
    {
      var c :| c in items + [b] && c in variations && p == GetAvifFilename(variations[c]);
      assert c in items;
    }
  }

  /**
   * A sibling never outlives its variation: once the variation is among those a
   * bulk deletion walks, the sibling its creation wrote is gone.
   */
  lemma BulkDeletionRemovesCreatedSibling(files: set<string>, variations: seq<Pageimage>, v: Pageimage,
                                          stem: string, saveFilename: string)
    requires v in variations
    requires v.dir == [] || v.dir[|v.dir| - 1] == '/'
    requires v.basename == stem + "." + v.ext
    requires '/' !in v.basename && '.' !in v.ext
    requires forall i: nat :: OccursAt(Filename(v), "." + v.ext, i) ==> i == |v.dir| + |stem|
    requires Basename(saveFilename) == v.basename
    ensures CreationSibling(v.dir, saveFilename) !in files - VariationSiblings(variations)
  {
    RulesAgree(v, stem, saveFilename);
  }
}
