# AutoAvif, modelled in Dafny

AutoAvif is a ProcessWire module that gives every resized image variation an
AVIF "sibling". The sibling is created while the variation is saved and is
deleted together with the variation.

This project models the module class in `AutoAvif.module.php` and proves what
its hooks do:

- `ready()` decides which hooks are installed.
- `beforePageimageSize` applies the page-editor thumbnail guard and
  `allowAvif`, resets the `avifCreated` flag, and registers the GD and Imagick
  save-ready closures.
- The closures encode the sibling. Each one captures the page's files
  directory, sets the flag, checks for `imageavif` (GD only), unlinks a stale
  sibling, and writes a fresh one.
- `afterPageimageSize` is the backfill. It issues one forced `size()` call on
  the original, with `forceNew` and `noDelay`.
- `getAvifFilename` is a `str_replace` of ".ext" by ".avif" in the full
  filename.
- The two deletion hooks, `beforePageimagesDelete` and
  `beforeExecuteVariations`, remove siblings.
- `___allowAvif` has a default implementation.

The project has five files:

- `wrappers.dfy`: `Option`.
- `php_strings.dfy`: the PHP builtins the module relies on. These are
  `str_replace` with one needle, `basename`, and the `filename` entry of
  `pathinfo`.
- `avif_names.dfy`: the two rules that name a sibling. The deletion side uses
  `getAvifFilename`; the creation side builds directory + `pathinfo` filename +
  ".avif". The file proves when the two rules agree.
- `lifecycle.dfy`: the hooks as functions on a value state. The state holds
  the flag, the save-ready closures registered so far (each one stands for
  the directory it captured), and the files on disk as a set of paths. The
  file also models whole `size()` requests, the backfill's forced passes, and
  the two findings below.
- `auto_avif.dfy`: the class `AutoAvif`. Its fields are the module's settings,
  the flag, the closures and the file set. Each hook is a method, and each
  method is proved against the matching function of `lifecycle.dfy`. The
  closure loop and the two deletion loops are `while` loops with invariants.

The class follows the code as written, including both findings. The
corrected hooks are `Lifecycle.BeforeSizeOneShot`, `Lifecycle.SaveReadyOneShot`
and `Lifecycle.AfterSizeEligible`; `Lifecycle.Request` and `Lifecycle.Chain`
put them together into whole `size()` requests.

The module's own text states two intentions that the code as written does
not meet:

- The comment "Skip admin thumbnail" (AutoAvif.module.php:46) says page-editor
  thumbnails get no AVIF. But save-ready closures from earlier requests stay
  registered and still fire for them (finding 1).
- The comment "Return early if an attempt was made to create an AVIF file"
  (:103) and the description of `createForExisting` (:245) say a missing
  sibling is created once, the next time the variation is requested. When
  `allowAvif` refuses the variation, the backfill repeats without end
  (finding 2).

## Model

| member | source | states |
|---|---|---|
| AutoAvif.AutoAvif.constructor | AutoAvif.module.php:10-15 | quality 70, speed 6, backfill off, no flag, no closures, and the default `allowAvif` that accepts every variation |
| Lifecycle.Ready | AutoAvif.module.php:20-29 | the creation hook and both deletion hooks are installed exactly when `enableAvif` is not identical to `false`; the backfill hook is installed exactly when, in addition, `createForExisting` is non-zero, so it never runs without the creation hook |
| Lifecycle.DefaultAllowAvif | AutoAvif.module.php:172-175 | the default policy accepts every variation, whatever the image, size and options |
| AutoAvif.AutoAvif.BeforePageimageSize | AutoAvif.module.php:37-53 | the new flag and closures are those of `Lifecycle.BeforeSize`: unchanged for an admin thumbnail or a refused variation; otherwise the flag is reset and one closure capturing the image's directory is added after the earlier ones |
| Lifecycle.IsAdminThumbnail | AutoAvif.module.php:47 | a request is a page-editor thumbnail when it runs in the admin and its width or its height is 260 |
| Lifecycle.BeforeSize | AutoAvif.module.php:37-53 | the before hook as written never touches the files. It leaves the state unchanged exactly when the request is an admin thumbnail or `allowAvif` refuses. Otherwise it clears the flag and appends one closure for the image's directory |
| Lifecycle.ThumbnailSkipsBeforeHook | AutoAvif.module.php:46-47 | in the admin, with width or height 260, the before hook leaves the whole state unchanged, whatever the policy says |
| Lifecycle.ThumbnailSkipsAfterHook | AutoAvif.module.php:100-101 | in the admin, with width or height 260, the after hook issues no forced call, whatever the flag and files |
| Lifecycle.RefusedRegistersNothing | AutoAvif.module.php:50 | when `allowAvif` refuses, no closure is registered and the flag keeps its previous value |
| AutoAvif.AutoAvif.RunClosure | AutoAvif.module.php:55-84 | one save-ready closure always sets the flag. When GD lacks `imageavif`, the files are unchanged. Otherwise the sibling is unlinked and written anew, so it is on disk afterwards exactly when the encode succeeds, and no other path changes. It reports a throw exactly when an Imagick encode fails |
| Lifecycle.RunClosures | AutoAvif.module.php:70-84 | the closures that run on one notification are the registered ones, in order. A throwing Imagick encode stops the run after the first closure |
| AutoAvif.AutoAvif.ImSaveReady | AutoAvif.module.php:55-84 | running the registered closures in turn gives the state `Lifecycle.SaveReady` describes. The loop stops at the first throw, and the method reports a throw exactly when an Imagick encode fails and a closure is registered |
| Lifecycle.SaveReady | AutoAvif.module.php:55-84 | the save-ready notification as written: the flag is set when a closure is registered, and the files change by `Lifecycle.AfterEncode` for the siblings of the closures that run |
| Lifecycle.AfterEncode | AutoAvif.module.php:60-66 | the files after closures aiming at a set of siblings: unchanged without `imageavif` (GD), otherwise with those siblings added when the encode succeeds and removed when it fails |
| Lifecycle.SaveReadyEffect | AutoAvif.module.php:55-84 | after the save-ready notification the closures are unchanged. The flag is set if any closure is registered. Without `imageavif` (GD) the files are unchanged. When the encoder does not throw, every closure's sibling is present exactly when the encode succeeds. A throwing Imagick encode removes only the first closure's sibling. Paths that are no closure's sibling keep their state |
| Lifecycle.AfterEncodeUnion | AutoAvif.module.php:64-66 | running closures for one set of siblings and then for another is the same as running them for both sets together |
| AvifNames.CreationSibling | AutoAvif.module.php:62-63 | the path a closure writes: the captured directory, then the `pathinfo` filename of the save filename, then ".avif" |
| AvifNames.CreationSiblingShape | AutoAvif.module.php:62-63 | the path a closure writes lies directly in the captured directory (no separator after it) and ends in ".avif" |
| AvifNames.CreationSiblingName | AutoAvif.module.php:76-77 | between the directory and ".avif" comes the save filename's basename, cut before its last dot, or the whole basename when it has no dot |
| PhpStrings.PathinfoFilename | AutoAvif.module.php:62 | `pathinfo(...)['filename']` is a prefix of the basename and contains no separator |
| PhpStrings.PathinfoFilenameCut | AutoAvif.module.php:62 | the `filename` part stops at the basename's last dot: no dot follows the cut, and it is the whole basename when there is no dot |
| PhpStrings.PathinfoFilenameOfStem | AutoAvif.module.php:76 | for a basename `stem.ext` with a dot-free `ext`, the `filename` part is `stem` |
| PhpStrings.Basename | AutoAvif.module.php:62 | PHP `basename`, which `pathinfo` applies first: the part after the last '/' once trailing '/' are stripped; it contains no '/' |
| PhpStrings.BasenameOfJoin | AutoAvif.module.php:76 | the basename of a directory path that ends in '/' followed by a separator-free name is that name |
| AvifNames.CreationSiblingsDistinct | AutoAvif.module.php:44 | closures that captured different directories write different sibling paths for the same save filename |
| AvifNames.GetAvifFilename | AutoAvif.module.php:122-124 | `str_replace` of ".ext" by ".avif" on the variation's full filename (directory plus basename) |
| PhpStrings.StrReplace | AutoAvif.module.php:123 | PHP `str_replace` with one needle: a left-to-right scan that replaces each occurrence and resumes after it; an empty needle leaves the subject alone |
| AvifNames.GetAvifFilenameWithoutExt | AutoAvif.module.php:122-124 | when ".ext" does not occur in the filename, `getAvifFilename` returns the filename unchanged |
| AvifNames.GetAvifFilenameOfSuffix | AutoAvif.module.php:122-124 | when ".ext" occurs only as the suffix of the filename, exactly that suffix becomes ".avif" |
| PhpStrings.StrReplaceNoMatch | AutoAvif.module.php:123 | `str_replace` returns the subject unchanged when the needle occurs nowhere in it |
| PhpStrings.StrReplaceFirst | AutoAvif.module.php:123 | `str_replace` copies everything before the first occurrence, puts the replacement there, and carries on right after the occurrence, so occurrences never overlap |
| PhpStrings.StrReplaceSuffixOnly | AutoAvif.module.php:123 | a needle that occurs only as the suffix is swapped for the replacement |
| AvifNames.RulesAgree | AutoAvif.module.php:122-124 | deletion finds what creation wrote. The conditions are: the variation `stem.ext` lies in a directory that ends in '/', ".ext" occurs in its full filename only as the suffix, and the engine saves a file with the variation's basename. Then `getAvifFilename` gives the path the closure writes |
| Lifecycle.CreationWritesDeletionPath | AutoAvif.module.php:37-67 | an eligible `size()` whose encoder succeeds sets the flag and leaves on disk the exact path `getAvifFilename` later looks for |
| Lifecycle.AfterSize | AutoAvif.module.php:93-115 | a forced call is issued exactly when the request is not an admin thumbnail, no encode was attempted, the sibling is absent and the variation has an original. A missing original is its own outcome. The call keeps width and height |
| AutoAvif.AutoAvif.AfterPageimageSize | AutoAvif.module.php:93-115 | the hook's outcome on the object's current flag and files is the one `Lifecycle.AfterSize` gives |
| Lifecycle.ForcedOptions | AutoAvif.module.php:98-112 | the forced call's options are the caller's options (an absent argument counts as empty) with `forceNew` and `noDelay` set to true; every other option is kept and no other key is added |
| Lifecycle.ForcedOptionsIdempotent | AutoAvif.module.php:110-112 | forcing the options of a forced call again changes nothing |
| Lifecycle.BeforeSizeOneShot | AutoAvif.module.php:37-84 | corrected before hook: it drops every earlier closure, and registers one for this image only when the request is eligible |
| Lifecycle.SaveReadyOneShot | AutoAvif.module.php:55-84 | corrected notification: it does what `Lifecycle.SaveReady` does, then removes the closures that fired |
| Lifecycle.StaleHandlerEncodesThumbnail | AutoAvif.module.php:55-67 | as written, a closure left by an earlier request fires for an admin thumbnail and writes a sibling for it |
| Lifecycle.StaleHandlersWriteTwoSiblings | AutoAvif.module.php:70-84 | as written, after eligible requests on images in two directories, one save writes two different siblings, one of them in the other image's directory |
| Lifecycle.OneShotWritesOnlyOwnSibling | AutoAvif.module.php:37-84 | with one-shot closures, a creation event changes no path other than the resized image's own sibling. It writes none for a thumbnail or a refused variation, writes that sibling when the encode succeeds, and leaves no closure behind |
| Lifecycle.RequestAsWritten | AutoAvif.module.php:37-115 | one `size()` call as written: the before hook when installed, the save-ready notification when the resizer saves, then the after hook when installed |
| Lifecycle.ChainAsWritten | AutoAvif.module.php:104-113 | the number of forced passes, never more than the fuel bound, that one `size()` call sets off as written, each forced pass re-entering both hooks |
| Lifecycle.BackfillRecursesWhenRefused | AutoAvif.module.php:104-113 | as written, when `allowAvif` refuses a variation with no sibling, every forced pass issues another one, whatever the resizer does on it: the chain of forced passes reaches every bound |
| Lifecycle.AsWrittenAcceptedAtMostOne | AutoAvif.module.php:104-113 | as written, with the hooks `ready()` installs, a policy that accepts everything (the shipped `___allowAvif`), and forced passes that resize: one `size()` call sets off at most one forced pass, and exactly one when its after hook issues a call |
| Lifecycle.AfterSizeEligible | AutoAvif.module.php:104-113 | the corrected after hook issues the as-written call exactly when that call is issued, the incoming options do not mark a forced pass (`forceNew` true), and `allowAvif` accepts the original; otherwise it issues nothing |
| Lifecycle.Request | AutoAvif.module.php:37-115 | one `size()` call with the corrected hooks: the one-shot before hook and notification, then the corrected after hook |
| Lifecycle.Chain | AutoAvif.module.php:104-113 | the number of forced passes, never more than the fuel bound, that one corrected `size()` call sets off |
| Lifecycle.ForcedPassEndsBackfill | AutoAvif.module.php:37-115 | with the corrected hooks as `ready()` installs them, and whatever the resizer does on a forced pass: one `size()` call sets off at most one forced pass, exactly one when its after hook issues a call, and none when backfill is off |
| AutoAvif.AutoAvif.BeforePageimagesDelete | AutoAvif.module.php:132-139 | the files afterwards are the files before minus the `getAvifFilename` sibling of every variation: each sibling is gone, a missing sibling is a no-op, and no other path changes |
| Lifecycle.BulkDeletionRemovesCreatedSibling | AutoAvif.module.php:135-138 | the sibling a creation wrote for a variation does not outlive a bulk deletion that walks that variation |
| AutoAvif.AutoAvif.BeforeExecuteVariations | AutoAvif.module.php:147-161 | the files afterwards are the files before minus `Lifecycle.SelectedSiblings`: nothing for a missing, scalar or empty `delete` value; otherwise the siblings of the posted basenames that name a variation; no other path changes |
| Lifecycle.SelectedSiblings | AutoAvif.module.php:150-159 | for a missing, scalar or empty `delete` value nothing is selected. Every posted basename that names a variation has its sibling selected, and every selected path is the sibling of a posted basename that names a variation |
| Lifecycle.UnresolvedBasenameSkipped | AutoAvif.module.php:155-156 | a posted basename that names no variation adds nothing to the deletion |

## Left out

- `getModuleConfigInputfields` (admin form and environment probing) is not part of this model. It decides nothing about siblings.
- The encoders (`imageavif` and the Imagick calls) are not modelled as code. Each is an `Encoder` value: the engine, whether GD has `imageavif`, and whether the encode writes its file. `quality` and `speed` are kept as fields but do not influence the model.
- AutoAvif.AutoAvif.RunClosure: a fresh sibling exists afterwards only when the encoder succeeds; a failed encode leaves no sibling.
- AutoAvif.AutoAvif.ImSaveReady: a failing Imagick encode (for instance an ImageMagick without AVIF support) is modelled as a throw that ends the run of closures after the first one, which has already unlinked its stale sibling; the later closures do not run. What happens to the exception after the save step is host code that is not part of this model. A `Request` or `RequestAsWritten` still runs the after hook, where the set flag makes it issue nothing.
- A save by an engine other than GD or Imagick fires no closure; the model assumes that every resize goes through one of the two.
- `set_time_limit(60)` is left out; it is runtime plumbing.
- ProcessWire's hook registry (`addHookBefore`, `addHookAfter`, priorities, `HookEvent` arguments) is left out. Hooks are direct method calls, and `Lifecycle.Ready`'s result decides which of them a modelled request runs.
- `$input->post('delete')` becomes a `PostValue` parameter, and `getVariations()` becomes a parameter: a sequence for bulk deletion, a map keyed by basename for selective deletion. `WireArray::get` is modelled as a lookup by basename only; its other selector forms are not modelled.
- `sizeOptionsToArray` is a framework call whose behaviour is not visible here. Options are modelled as arrays (maps) only, and a string or integer options argument is not modelled.
- Width and height are integers. PHP's strict `=== 260` on a non-integer argument is not modelled.
- `createForExisting` is an integer, and PHP truthiness is modelled as non-zero.
- The filesystem is a set of paths. File contents are not modelled, so rewriting an existing sibling cannot be told apart from keeping it; the unlink-then-write order is modelled in `RunClosure`.
- The engine's save filename is a parameter. The agreement lemmas assume it has the variation's basename.
- A `size()` call on a null original is the `NoOriginal` outcome rather than a PHP error.
- Lifecycle.ChainAsWritten: the forced passes are counted up to a fuel bound, and unbounded recursion is stated as "reaches every bound". The resizer's outcome on every forced pass is one `Resize` value.
- Lifecycle.AsWrittenAcceptedAtMostOne: the bound needs forced passes that resize. A forced pass that saves nothing leaves the flag cleared, and the code as written then backfills again.
- `basename` and `pathinfo` are modelled for '/' separators only. Windows separators and locale-dependent multibyte handling are left out.
- The benign race when concurrent requests write the same sibling is left out; the model is sequential.
- AutoAvif.info.php is not part of this model; it holds static metadata only.

## Findings

| source | as written | input that shows it | evidently intended | confidence | as-written member | corrected member |
|---|---|---|---|---|---|---|
| AutoAvif.module.php:55-84 | every eligible `size()` registers two more save-ready closures, and none is ever removed, so each later save runs all of them with their old captured directories | in one process, an eligible `size()` on an image in directory A, then either an admin thumbnail request (width 260) or an eligible `size()` on an image in directory B | as the "Skip admin thumbnail" comment (:46) says, a thumbnail gets no AVIF, and a closure fires only for the save of the request that registered it | medium, not executed | Lifecycle.StaleHandlersWriteTwoSiblings | Lifecycle.OneShotWritesOnlyOwnSibling |
| AutoAvif.module.php:104-113 | the backfill does not consult `allowAvif`. A refused variation never registers a closure, so the flag stays false and no sibling appears, and every forced pass issues another forced pass | `createForExisting` = 1, an `allowAvif` hook that returns false for the variation, no sibling on disk, first `size()` of the process | as the comments at :103 and :245 say, a missing sibling is attempted once, when the variation is next requested: a refused variation is not backfilled, and a `size()` call sets off at most one forced pass | high, not executed | Lifecycle.BackfillRecursesWhenRefused | Lifecycle.ForcedPassEndsBackfill |
