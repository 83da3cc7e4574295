/**
 * The AutoAvif module object: its settings, the attempt flag, the save-ready
 * closures it has registered, and the files on disk it creates and removes. Each
 * hook is a method proved against the corresponding function of Lifecycle.
 */
module AutoAvif {
  import opened Wrappers
  import opened AvifNames
  import opened Lifecycle

  class AutoAvif {
    /** Whether an encode was attempted during the current `size()` event. */
    var avifCreated: bool
    /** Encoder settings, passed to `imageavif` and to Imagick. */
    var quality: int
    var speed: int
    /** Backfill switch; any non-zero value enables it. */
    var createForExisting: int
    /** The hookable `___allowAvif`. */
    var allowAvif: AllowPolicy
    /** The pagefiles directory captured by each registered pair of save-ready closures. */
    var handlers: seq<string>
    /** The files on disk. */
    var files: set<string>

    /** The part of the object the hooks change, as a Lifecycle state. */
    function Snapshot(): State
      reads this
    {
      State(avifCreated, handlers, files)
    }

    /** The constructor's defaults: quality 70, speed 6, no backfill, every variation allowed. */
    constructor (files: set<string>)
      ensures quality == DEFAULT_QUALITY && speed == DEFAULT_SPEED && createForExisting == 0
      ensures forall image, width, height, options :: allowAvif(image, width, height, options)
      ensures Snapshot() == State(false, [], files)
    {
      avifCreated := false;
      quality := DEFAULT_QUALITY;
      speed := DEFAULT_SPEED;
      createForExisting := 0;
      allowAvif := DefaultAllowAvif;
      handlers := [];
      this.files := files;
    }

    /** `beforePageimageSize`: thumbnail guard, `allowAvif`, flag reset, closure registration. */
    method BeforePageimageSize(image: Pageimage, width: int, height: int, options: Options, admin: bool)
      modifies this`avifCreated, this`handlers
      ensures Snapshot() == BeforeSize(old(Snapshot()), image, width, height, admin, allowAvif(image, width, height, options))
    {
      if IsAdminThumbnail(admin, width, height) {
        return;
      }
      if !allowAvif(image, width, height, options) {
        return;
      }
      avifCreated := false;
      handlers := handlers + [image.dir];
    }

    /**
     * The engine's `imSaveReady` notification: the registered closures run in turn;
     * each sets the flag and, unless GD lacks `imageavif`, removes any stale sibling
     * and lets the encoder write a fresh one. A throwing Imagick encode ends the run
     * and is reported in `thrown`.
     */
    method ImSaveReady(enc: Encoder, saveFilename: string) returns (thrown: bool)
      modifies this`avifCreated, this`files
      ensures Snapshot() == SaveReady(old(Snapshot()), enc, saveFilename)
      ensures thrown <==> Throws(enc) && |old(handlers)| > 0
    {
      var closures := handlers;
      var i := 0;
      thrown := false;
      while i < |closures| && !thrown
        invariant 0 <= i <= |closures|
        invariant handlers == closures
        invariant thrown <==> Throws(enc) && i > 0
        invariant thrown ==> i == 1
        invariant avifCreated == (old(avifCreated) || i > 0)
        invariant files == AfterEncode(old(files), enc, Siblings(closures[..i], saveFilename))
      {
        thrown := RunClosure(closures[i], enc, saveFilename);
        SiblingsStep(closures, i, saveFilename);
        AfterEncodeUnion(old(files), enc, Siblings(closures[..i], saveFilename), {CreationSibling(closures[i], saveFilename)});
        i := i + 1;
      }
      assert old(handlers) == closures;
      if thrown {
        assert RunClosures(closures, enc) == closures[..i];
      } else {
        assert closures[..i] == closures;
      }
    }

    /**
     * One save-ready closure, capturing the pagefiles directory `dir`: it sets the
     * flag and, unless GD lacks `imageavif`, unlinks a stale sibling and has the
     * encoder write the sibling, which it does when the encode succeeds; a failing
     * Imagick encode throws instead.
     */
    method RunClosure(dir: string, enc: Encoder, saveFilename: string) returns (thrown: bool)
      modifies this`avifCreated, this`files
      ensures avifCreated
      ensures files == AfterEncode(old(files), enc, {CreationSibling(dir, saveFilename)})
      ensures thrown == Throws(enc)
    {
      avifCreated := true;
      thrown := false;
      if !CanEncode(enc) {
        return;
      }
      var avif := CreationSibling(dir, saveFilename);
      if avif in files {
        files := files - {avif};
      }
      if enc.ok {
        files := files + {avif};
      } else if enc.engine == IMagick {
        thrown := true;
      }
    }

    /**
     * `afterPageimageSize`: decides whether to call `size()` again on the original
     * with `forceNew` and `noDelay`, and returns that call.
     */
    method AfterPageimageSize(variation: Pageimage, width: int, height: int, options: Option<Options>, admin: bool)
      returns (r: Backfill)
      ensures r == AfterSize(Snapshot(), variation, width, height, options, admin)
    {
      var opts := Normalize(options);
      if IsAdminThumbnail(admin, width, height) {
        return NoCall;
      }
      if avifCreated {
        return NoCall;
      }
      var avif := GetAvifFilename(variation);
      if avif in files {
        return NoCall;
      }
      match variation.original
      case None =>
        r := NoOriginal;
      case Some(original) =>
        opts := opts["forceNew" := BoolOpt(true)];
        opts := opts["noDelay" := BoolOpt(true)];
        r := Call(SizeCall(original, width, height, opts));
    }

    /** `beforePageimagesDelete`: removes the sibling of every variation of the deleted image. */
    method BeforePageimagesDelete(variations: seq<Pageimage>)
      modifies this`files
      ensures files == old(files) - VariationSiblings(variations)
    {
      var i := 0;
      while i < |variations|
        invariant 0 <= i <= |variations|
        invariant files == old(files) - VariationSiblings(variations[..i])
      {
        var avif := GetAvifFilename(variations[i]);
        if avif in files {
          files := files - {avif};
        }
        assert variations[..i + 1] == variations[..i] + [variations[i]];
        assert VariationSiblings(variations[..i + 1]) == VariationSiblings(variations[..i]) + {avif};
        i := i + 1;
      }
      assert variations[..i] == variations;
    }

    /**
     * `beforeExecuteVariations`: for a non-empty posted `delete` array, removes the
     * sibling of each posted basename that names a variation and skips the rest.
     */
    method BeforeExecuteVariations(delete: PostValue, variations: map<string, Pageimage>)
      modifies this`files
      ensures files == old(files) - SelectedSiblings(delete, variations)
    {
      if delete.PostArray? && |delete.items| > 0 {
        var items := delete.items;
        var i := 0;
        while i < |items|
          invariant 0 <= i <= |items|
          invariant files == old(files) - SelectedSiblings(PostArray(items[..i]), variations)
        {
          assert items[..i + 1] == items[..i] + [items[i]];
          var basename := items[i];
          if basename in variations {
            var avif := GetAvifFilename(variations[basename]);
            if avif in files {
              files := files - {avif};
            }
            assert SelectedSiblings(PostArray(items[..i + 1]), variations)
                == SelectedSiblings(PostArray(items[..i]), variations) + {avif};
          } else {
            UnresolvedBasenameSkipped(items[..i], basename, variations);
          }
          i := i + 1;
        }
        assert items[..i] == items;
      }
    }
  }
}
