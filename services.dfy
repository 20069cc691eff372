/**
 * `CryptomatteExtractionService.extract_all`: for every layer of an image,
 * a folder `<output dir>/<file base name>_<layer name>`, and in it one
 * PNG mask per object of the layer's manifest, visited in ascending name
 * order, except the objects whose mask is uniform.
 *
 * The repository and the image writer are outside the model: the loaded
 * image and the channel data are the answers of `loadHeader` and
 * `readChannels`, and the effects on the file system are returned as a
 * trace of actions, followed by the exception that stopped the run, if
 * any.
 */
module Extraction {
  import opened Wrappers
  import opened Bits
  import opened Strings
  import opened Paths
  import opened Entities
  import opened Aggregates
  import opened Masking

  // ---------------------------------------------------------------------
  // File names
  // ---------------------------------------------------------------------

  /** `c.isalnum()` on ASCII characters. */
  predicate IsAsciiAlnum(c: char) {
    'a' <= c <= 'z' || 'A' <= c <= 'Z' || '0' <= c <= '9'
  }

  /** The characters a file name keeps: alphanumerics, space, '.' and '_'. */
  predicate Allowed(c: char) {
    IsAsciiAlnum(c) || c == ' ' || c == '.' || c == '_'
  }

  /** `[c for c in s if c.isalnum() or c in (' ', '.', '_')]`, joined. */
  function Filtered(s: string): (r: string)
    ensures |r| <= |s|
    ensures forall i :: 0 <= i < |r| ==> Allowed(r[i])
  {
    if s == [] then []
    else Filtered(s[..|s| - 1]) + (if Allowed(s[|s| - 1]) then [s[|s| - 1]] else [])
  }

  /** The filter works character by character: it keeps the order of what it keeps. */
  lemma {:induction false} FilteredAppend(a: string, b: string)
    ensures Filtered(a + b) == Filtered(a) + Filtered(b)
    decreases |b|
  {
    if b == [] {
      assert a + b == a;
    } else {
      var c := b[|b| - 1];
      var b' := b[..|b| - 1];
      assert (a + b)[..|a + b| - 1] == a + b';
      FilteredAppend(a, b');
    }
  }

  /** The filter keeps every allowed character, as often as it occurs, and no other. */
  lemma {:induction false} FilteredCounts(s: string)
    ensures forall c :: multiset(Filtered(s))[c] == if Allowed(c) then multiset(s)[c] else 0
  {
    if s != [] {
      var init, last := s[..|s| - 1], s[|s| - 1];
      FilteredCounts(init);
      assert s == init + [last];
    }
  }

  /** A string of allowed characters passes the filter unchanged. */
  lemma {:induction false} FilteredAllowed(s: string)
    requires forall i :: 0 <= i < |s| ==> Allowed(s[i])
    ensures Filtered(s) == s
  {
    if s != [] {
      FilteredAllowed(s[..|s| - 1]);
    }
  }

  /**
   * `safe_name`: the allowed characters of an object name, then `strip()`.
   * Only allowed characters remain, and no space at either end.
   */
  function Sanitize(objName: string): (r: string)
    ensures forall i :: 0 <= i < |r| ==> Allowed(r[i])
    ensures r == [] || (r[0] != ' ' && r[|r| - 1] != ' ')
  {
    var f := Filtered(objName);
    StripLeadingDrops(f, IsSpace);
    StripTrailingDrops(StripLeading(f, IsSpace), IsSpace);
    StripTrailing(StripLeading(f, IsSpace), IsSpace)
  }

  /** `r` is `f` without its first `a` and its last `|f| - b` characters, all spaces. */
  predicate TrimmedOf(r: string, f: string, a: nat, b: nat) {
    && a <= b <= |f|
    && r == f[a..b]
    && (forall k :: 0 <= k < a ==> f[k] == ' ')
    && (forall k :: b <= k < |f| ==> f[k] == ' ')
  }

  /**
   * The sanitised name is the filtered name less a run of spaces at each
   * end: the allowed characters keep their relative order.
   */
  lemma SanitizeTrims(objName: string) returns (a: nat, b: nat)
    ensures TrimmedOf(Sanitize(objName), Filtered(objName), a, b)
  {
    a, b := TrimmedEnds(Filtered(objName));
  }

  /** Stripping a string of allowed characters only drops spaces, at the ends. */
  lemma TrimmedEnds(f: string) returns (a: nat, b: nat)
    requires forall k :: 0 <= k < |f| ==> Allowed(f[k])
    ensures TrimmedOf(StripTrailing(StripLeading(f, IsSpace), IsSpace), f, a, b)
  {
    var l := StripLeading(f, IsSpace);
    var t := StripTrailing(l, IsSpace);
    StripLeadingDrops(f, IsSpace);
    StripTrailingDrops(l, IsSpace);
    a := |f| - |l|;
    b := a + |t|;
    forall k | 0 <= k < a
      ensures f[k] == ' '
    {
      BlankIsTheOnlyAllowedSpace(f[k]);
    }
    forall k | b <= k < |f|
      ensures f[k] == ' '
    {
      assert f[k] == l[k - a];
      BlankIsTheOnlyAllowedSpace(f[k]);
    }
    forall k | 0 <= k < |t|
      ensures t[k] == f[a..b][k]
    {
      assert t[k] == l[k] == f[a + k];
    }
  }

  lemma BlankIsTheOnlyAllowedSpace(c: char)
    requires IsSpace(c) && Allowed(c)
    ensures c == ' '
  {
  }

  /** Sanitising twice is sanitising once. */
  lemma SanitizeIdempotent(objName: string)
    ensures Sanitize(Sanitize(objName)) == Sanitize(objName)
  {
    var r := Sanitize(objName);
    FilteredAllowed(r);
    assert StripLeading(r, IsSpace) == r;
    assert StripTrailing(r, IsSpace) == r;
  }

  /** `output_dir`, which defaults to the directory of the input file. */
  function OutputDir(filePath: string, outputDir: Option<string>): (r: string)
    ensures outputDir.None? ==> (r == "" <==> '/' !in filePath) && |r| <= |filePath| && r == filePath[..|r|]
  {
    match outputDir
    case None => Dirname(filePath)
    case Some(d) => d
  }

  /**
   * `os.path.splitext(os.path.basename(file_path))[0]`: the file name, cut
   * at its extension dot when it has one.
   */
  function BaseName(filePath: string): (b: string)
    ensures '/' !in b
    ensures |b| <= |Basename(filePath)| && b == Basename(filePath)[..|b|]
    ensures b == Basename(filePath) || ExtensionAt(Basename(filePath), |b|)
  {
    var n := Basename(filePath);
    StripExtensionCuts(n);
    StripExtension(n)
  }

  /** A file `<stem>.<ext>` in any directory has base name `<stem>`. */
  lemma BaseNameOfFile(dir: string, stem: string, ext: string)
    requires dir == [] || dir[|dir| - 1] == '/'
    requires '/' !in stem && '/' !in ext && '.' !in ext
    requires exists k :: 0 <= k < |stem| && stem[k] != '.'
    ensures BaseName(dir + (stem + "." + ext)) == stem
  {
    var x := stem + "." + ext;
    StemDotExtension(stem, ext);
    BasenameAfterSep(dir, x);
    StripExtensionCuts(x);
    var r := StripExtension(x);
    ExtensionAtUnique(x, |r|, |stem|);
    assert r == x[..|stem|];
  }

  /** The dot between a stem and a dot-free extension starts the extension. */
  lemma StemDotExtension(stem: string, ext: string)
    requires '/' !in stem && '/' !in ext && '.' !in ext
    requires exists k :: 0 <= k < |stem| && stem[k] != '.'
    ensures '/' !in stem + "." + ext
    ensures ExtensionAt(stem + "." + ext, |stem|)
  {
    var x := stem + "." + ext;
    forall k | |stem| < k < |x|
      ensures x[k] != '.' && x[k] != '/'
    {
      assert x[k] == ext[k - |stem| - 1];
    }
    forall k | 0 <= k < |stem|
      ensures x[k] == stem[k]
    {
    }
    var k :| 0 <= k < |stem| && stem[k] != '.';
    assert x[k] != '.' && x[k] != '/';
  }


  /** A file name without a '.' is its own base name. */
  lemma BaseNameWithoutExtension(dir: string, stem: string)
    requires dir == [] || dir[|dir| - 1] == '/'
    requires '/' !in stem && '.' !in stem
    ensures BaseName(dir + stem) == stem
  {
    BasenameAfterSep(dir, stem);
    StripExtensionCuts(stem);
  }

  /** `layer_folder`. */
  function LayerFolder(outDir: string, filePath: string, layerName: string): string {
    Join(outDir, BaseName(filePath) + "_" + layerName)
  }

  /** `save_path`. */
  function SavePath(layerFolder: string, objName: string): string {
    Join(layerFolder, Sanitize(objName) + "_mask.png")
  }

  /**
   * A mask is saved as `<output dir>/<base>_<layer>/<safe name>_mask.png`,
   * with a '/' inserted only where a part does not already end in one:
   * neither joined part is ever absolute, and the file name is always the
   * safe name with `_mask.png`.
   */
  lemma SavePathShape(outDir: string, filePath: string, layerName: string, objName: string)
    ensures SavePath(LayerFolder(outDir, filePath, layerName), objName)
            == WithSep(WithSep(outDir) + (BaseName(filePath) + "_" + layerName)) + (Sanitize(objName) + "_mask.png")
    ensures Basename(SavePath(LayerFolder(outDir, filePath, layerName), objName)) == Sanitize(objName) + "_mask.png"
  {
    LayerFolderInside(outDir, filePath, layerName);
    SavePathInside(LayerFolder(outDir, filePath, layerName), objName);
  }

  /** The layer folder is always inside the output directory: `<out>/<base>_<layer>`. */
  lemma LayerFolderInside(outDir: string, filePath: string, layerName: string)
    ensures LayerFolder(outDir, filePath, layerName) == WithSep(outDir) + (BaseName(filePath) + "_" + layerName)
  {
    SubFolderRelative(BaseName(filePath), layerName);
    JoinRelative(outDir, BaseName(filePath) + "_" + layerName);
  }

  /** A mask is saved inside its layer folder, as `<safe name>_mask.png`. */
  lemma SavePathInside(layerFolder: string, objName: string)
    ensures SavePath(layerFolder, objName) == WithSep(layerFolder) + (Sanitize(objName) + "_mask.png")
    ensures Basename(SavePath(layerFolder, objName)) == Sanitize(objName) + "_mask.png"
  {
    var file := Sanitize(objName) + "_mask.png";
    MaskFileName(objName);
    assert SavePath(layerFolder, objName) == WithSep(layerFolder) + file by {
      NoSlashRelative(file);
      JoinRelative(layerFolder, file);
    }
    BasenameAfterSep(WithSep(layerFolder), file);
  }


  /** `<base>_<layer>` never starts with '/'. */
  lemma SubFolderRelative(base: string, layerName: string)
    requires '/' !in base
    ensures !StartsWith(base + "_" + layerName, "/")
  {
    var sub := base + "_" + layerName;
    if base == [] {
      assert sub[..1][0] == '_';
    } else {
      assert sub[..1][0] == base[0];
    }
  }

  /** A mask file name holds no '/'. */
  lemma MaskFileName(objName: string)
    ensures '/' !in Sanitize(objName) + "_mask.png"
  {
    var file := Sanitize(objName) + "_mask.png";
    forall k | 0 <= k < |file|
      ensures file[k] != '/'
    {
      if k < |Sanitize(objName)| {
        assert Allowed(file[k]);
      }
    }
  }



  // ---------------------------------------------------------------------
  // Uniform masks
  // ---------------------------------------------------------------------

  /** `mask.min() == mask.max()` for a mask with at least one pixel. */
  predicate Uniform(mask: Mask, w: nat)
    requires mask != [] && w > 0 && forall i :: 0 <= i < |mask| ==> |mask[i]| == w
  {
    PlaneMin(mask, w) == PlaneMax(mask, w)
  }

  /** A mask is uniform exactly when all its pixels equal its first one. */
  lemma UniformIffConstant(mask: Mask, w: nat)
    requires mask != [] && w > 0 && forall i :: 0 <= i < |mask| ==> |mask[i]| == w
    ensures Uniform(mask, w) <==> forall i, j :: 0 <= i < |mask| && 0 <= j < w ==> mask[i][j] == mask[0][0]
  {
    if !Uniform(mask, w) {
      var i, j := PlaneMinAttained(mask, w);
      var i', j' := PlaneMaxAttained(mask, w);
      assert mask[i][j] != mask[i'][j'];
    }
  }

  // ---------------------------------------------------------------------
  // The run
  // ---------------------------------------------------------------------

  /** What `extract_all` does to the file system. */
  datatype Action =
    | MakeFolder(path: string)           // os.makedirs(layer_folder, exist_ok=True)
    | SaveMask(path: string, mask: Mask) // ImageWriter.save_mask(save_path, mask)

  /** The exceptions `extract_all` lets escape, apart from those of `os.makedirs` and `save_mask`. */
  datatype ExtractError =
    | HeaderUnreadable                              // raised by load_header
    | ChannelsUnreadable(layerName: string)         // raised by read_channels
    | EmptyMask(layerName: string, objName: string) // min() of a mask without pixels

  /** The channel data the repository gives is a proper `[H, W, N]` array. */
  ghost predicate ReadsWellShaped(readChannels: (string, seq<string>) -> Option<Channels>) {
    forall p, names :: readChannels(p, names).Some? ==> WellShaped(readChannels(p, names).value)
  }

  /** The mask of each object of a manifest, as `compute_mask` gives it. */
  function MasksOf(manifest: map<string, Bits32>, c: Channels): (maskOf: string -> Mask)
    requires WellShaped(c)
    ensures forall name :: PlaneShape(maskOf(name), c.height, c.width)
    ensures forall name :: name in manifest ==> maskOf(name) == MaskOf(manifest[name], c)
  {
    name => if name in manifest then MaskOf(manifest[name], c) else ZeroMask(c.height, c.width)
  }

  /** Every object of `names` has an `h` by `w` mask. */
  ghost predicate MasksShaped(maskOf: string -> Mask, names: seq<string>, h: nat, w: nat) {
    forall k :: 0 <= k < |names| ==> PlaneShape(maskOf(names[k]), h, w)
  }

  /** An object of a layer, ready to be saved or skipped. */
  datatype Candidate = Candidate(path: string, mask: Mask, kept: bool)

  /** An object's save path and mask, kept when the mask is not uniform. */
  function CandidateOf(layerFolder: string, name: string, maskOf: string -> Mask, h: nat, w: nat): Candidate
    requires h > 0 && w > 0 && PlaneShape(maskOf(name), h, w)
  {
    Candidate(SavePath(layerFolder, name), maskOf(name), !Uniform(maskOf(name), w))
  }

  /** The saves of the kept candidates, in order. */
  function Picked(cs: seq<Candidate>): (r: seq<Action>)
    ensures |r| <= |cs|
  {
    if cs == [] then []
    else
      var c := cs[|cs| - 1];
      Picked(cs[..|cs| - 1]) + (if c.kept then [SaveMask(c.path, c.mask)] else [])
  }

  /** The positions of the kept candidates, in increasing order. */
  function KeptIndices(cs: seq<Candidate>): (idx: seq<nat>)
    ensures forall k :: 0 <= k < |idx| ==> idx[k] < |cs| && cs[idx[k]].kept
    ensures forall k, l :: 0 <= k < l < |idx| ==> idx[k] < idx[l]
  {
    if cs == [] then []
    else
      var n := |cs| - 1;
      var init := KeptIndices(cs[..n]);
      assert forall k :: 0 <= k < |init| ==> cs[..n][init[k]] == cs[init[k]];
      init + (if cs[n].kept then [n] else [])
  }

  /** The picked saves are those of the kept candidates, one for one. */
  lemma {:induction false} PickedAreKept(cs: seq<Candidate>)
    ensures |Picked(cs)| == |KeptIndices(cs)|
    ensures forall k :: 0 <= k < |Picked(cs)| ==>
              Picked(cs)[k] == SaveMask(cs[KeptIndices(cs)[k]].path, cs[KeptIndices(cs)[k]].mask)
  {
    if cs != [] {
      var n := |cs| - 1;
      var init := cs[..n];
      PickedAreKept(init);
      forall k | 0 <= k < |KeptIndices(init)|
        ensures Picked(cs)[k] == SaveMask(cs[KeptIndices(cs)[k]].path, cs[KeptIndices(cs)[k]].mask)
      {
        assert Picked(cs)[k] == Picked(init)[k];
        assert KeptIndices(cs)[k] == KeptIndices(init)[k];
        assert init[KeptIndices(init)[k]] == cs[KeptIndices(init)[k]];
      }
    }
  }

  /** Every kept candidate is among the kept positions. */
  lemma {:induction false} KeptIndicesComplete(cs: seq<Candidate>)
    ensures forall m :: 0 <= m < |cs| && cs[m].kept ==> m in KeptIndices(cs)
  {
    if cs != [] {
      var n := |cs| - 1;
      var init := cs[..n];
      KeptIndicesComplete(init);
      forall m | 0 <= m < n && cs[m].kept
        ensures m in KeptIndices(cs)
      {
        assert init[m].kept;
      }
    }
  }

  /**
   * The masks saved for the objects `names` of a layer: in the order of
   * `names`, one per object whose mask is not uniform, under the object's
   * sanitised name.
   */
  function MaskSaves(layerFolder: string, names: seq<string>, maskOf: string -> Mask, h: nat, w: nat): (r: seq<Action>)
    requires names == [] || (h > 0 && w > 0)
    requires MasksShaped(maskOf, names, h, w)
  {
    if names == [] then []
    else
      var c := CandidateOf(layerFolder, names[|names| - 1], maskOf, h, w);
      MaskSaves(layerFolder, names[..|names| - 1], maskOf, h, w) + (if c.kept then [SaveMask(c.path, c.mask)] else [])
  }

  /** The candidates of the objects `names`, in order. */
  function Candidates(layerFolder: string, names: seq<string>, maskOf: string -> Mask, h: nat, w: nat): (cs: seq<Candidate>)
    requires h > 0 && w > 0 && MasksShaped(maskOf, names, h, w)
    ensures |cs| == |names|
    ensures forall k :: 0 <= k < |names| ==> cs[k] == CandidateOf(layerFolder, names[k], maskOf, h, w)
  {
    seq(|names|, k requires 0 <= k < |names| => CandidateOf(layerFolder, names[k], maskOf, h, w))
  }

  lemma {:induction false} MaskSavesPicked(layerFolder: string, names: seq<string>, maskOf: string -> Mask, h: nat, w: nat)
    requires h > 0 && w > 0 && MasksShaped(maskOf, names, h, w)
    ensures MaskSaves(layerFolder, names, maskOf, h, w) == Picked(Candidates(layerFolder, names, maskOf, h, w))
  {
    if names != [] {
      var n := |names| - 1;
      MaskSavesPicked(layerFolder, names[..n], maskOf, h, w);
      var cs := Candidates(layerFolder, names, maskOf, h, w);
      assert cs[..n] == Candidates(layerFolder, names[..n], maskOf, h, w);
    }
  }

  /**
   * The saved masks are exactly those of the objects with a non-uniform
   * mask, in the order of `names`: `idx` picks those objects out, in
   * increasing position, and each is saved under its sanitised name.
   */
  lemma MaskSavesSelect(layerFolder: string, names: seq<string>, maskOf: string -> Mask, h: nat, w: nat)
    returns (idx: seq<nat>)
    requires h > 0 && w > 0 && MasksShaped(maskOf, names, h, w)
    ensures |idx| == |MaskSaves(layerFolder, names, maskOf, h, w)|
    ensures forall k :: 0 <= k < |idx| ==> idx[k] < |names|
    ensures forall k, l :: 0 <= k < l < |idx| ==> idx[k] < idx[l]
    ensures forall k :: 0 <= k < |idx| ==>
              MaskSaves(layerFolder, names, maskOf, h, w)[k] == SaveMask(SavePath(layerFolder, names[idx[k]]), maskOf(names[idx[k]]))
    ensures forall k :: 0 <= k < |idx| ==> !Uniform(maskOf(names[idx[k]]), w)
    ensures forall m :: 0 <= m < |names| && !Uniform(maskOf(names[m]), w) ==> m in idx
  {
    var cs := Candidates(layerFolder, names, maskOf, h, w);
    MaskSavesPicked(layerFolder, names, maskOf, h, w);
    PickedAreKept(cs);
    KeptIndicesComplete(cs);
    idx := KeptIndices(cs);
  }

  /** The saves of one more object extend those of the objects before it. */
  lemma MaskSavesStep(layerFolder: string, names: seq<string>, maskOf: string -> Mask, h: nat, w: nat, j: nat)
    requires h > 0 && w > 0 && MasksShaped(maskOf, names, h, w) && j < |names|
    ensures MaskSaves(layerFolder, names[..j + 1], maskOf, h, w)
            == MaskSaves(layerFolder, names[..j], maskOf, h, w)
               + (if Uniform(maskOf(names[j]), w) then [] else [SaveMask(SavePath(layerFolder, names[j]), maskOf(names[j]))])
  {
    assert names[..j + 1][..j] == names[..j];
  }

  /**
   * One layer: its folder is made, its channels read, and the masks of its
   * objects, in sorted name order, saved or skipped; an object whose mask
   * has no pixel stops the run.
   */
  ghost function LayerStep(filePath: string, layerFolder: string, layer: Layer,
                           readChannels: (string, seq<string>) -> Option<Channels>): (seq<Action>, Option<ExtractError>)
    requires ReadsWellShaped(readChannels)
  {
    var made := [MakeFolder(layerFolder)];
    match readChannels(filePath, layer.channelNames)
    case None => (made, Some(ChannelsUnreadable(layer.name)))
    case Some(c) =>
      var names := SortedOf(layer.manifest.Keys);
      if names != [] && (c.height == 0 || c.width == 0) then (made, Some(EmptyMask(layer.name, names[0])))
      else (made + MaskSaves(layerFolder, names, MasksOf(layer.manifest, c), c.height, c.width), None)
  }

  /** The layers in order, up to the first that stops the run. */
  ghost function LayersExtraction(filePath: string, outDir: string, layers: seq<Layer>,
                                  readChannels: (string, seq<string>) -> Option<Channels>): (seq<Action>, Option<ExtractError>)
    requires ReadsWellShaped(readChannels)
  {
    if layers == [] then ([], None)
    else
      var (done, e) := LayersExtraction(filePath, outDir, layers[..|layers| - 1], readChannels);
      if e.Some? then (done, e)
      else
        var layer := layers[|layers| - 1];
        var (more, f) := LayerStep(filePath, LayerFolder(outDir, filePath, layer.name), layer, readChannels);
        (done + more, f)
  }

  /** One more layer runs only when the layers before it did not stop the run. */
  lemma LayersExtractionStep(filePath: string, outDir: string, layers: seq<Layer>, i: nat,
                             readChannels: (string, seq<string>) -> Option<Channels>)
    requires ReadsWellShaped(readChannels) && i < |layers|
    requires LayersExtraction(filePath, outDir, layers[..i], readChannels).1.None?
    ensures LayersExtraction(filePath, outDir, layers[..i + 1], readChannels)
            == (LayersExtraction(filePath, outDir, layers[..i], readChannels).0
                  + LayerStep(filePath, LayerFolder(outDir, filePath, layers[i].name), layers[i], readChannels).0,
                LayerStep(filePath, LayerFolder(outDir, filePath, layers[i].name), layers[i], readChannels).1)
  {
    assert layers[..i + 1][..i] == layers[..i];
  }

  /** What `extract_all` does: nothing when the header cannot be loaded. */
  ghost function ExtractionOf(filePath: string, outputDir: Option<string>, loadHeader: string -> Option<ExrImage>,
                              readChannels: (string, seq<string>) -> Option<Channels>): (seq<Action>, Option<ExtractError>)
    requires ReadsWellShaped(readChannels)
  {
    match loadHeader(filePath)
    case None => ([], Some(HeaderUnreadable))
    case Some(image) => LayersExtraction(filePath, OutputDir(filePath, outputDir), image.layers, readChannels)
  }

  /** Once a layer stops the run, the later layers do nothing. */
  lemma {:induction false} StopSticks(filePath: string, outDir: string, layers: seq<Layer>, n: nat,
                                      readChannels: (string, seq<string>) -> Option<Channels>)
    requires ReadsWellShaped(readChannels) && n <= |layers|
    requires LayersExtraction(filePath, outDir, layers[..n], readChannels).1.Some?
    ensures LayersExtraction(filePath, outDir, layers, readChannels) == LayersExtraction(filePath, outDir, layers[..n], readChannels)
  {
    if n < |layers| {
      var init := layers[..|layers| - 1];
      assert init[..n] == layers[..n];
      StopSticks(filePath, outDir, init, n, readChannels);
    } else {
      assert layers[..n] == layers;
    }
  }

  /**
   * One pass of the inner loop of `extract_all`: the object's mask is
   * computed and saved under its sanitised name, or skipped when uniform.
   */
  method SaveObjectMask(layerFolder: string, objName: string, manifest: map<string, Bits32>, rawData: Channels)
    returns (save: seq<Action>)
    requires WellShaped(rawData) && rawData.height > 0 && rawData.width > 0 && objName in manifest
    ensures save == if Uniform(MasksOf(manifest, rawData)(objName), rawData.width) then []
                    else [SaveMask(SavePath(layerFolder, objName), MasksOf(manifest, rawData)(objName))]
  {
    var mask := ComputeMask(manifest[objName], rawData);
    if Uniform(mask, rawData.width) {
      return [];
    }
    var savePath := SavePath(layerFolder, objName);
    save := [SaveMask(savePath, mask)];
  }

  /**
   * The inner loop of `extract_all` for one layer: each object's mask, in
   * the order of `sortedNames`, saved unless it is uniform.
   */
  method SaveLayerMasks(layerFolder: string, sortedNames: seq<string>, manifest: map<string, Bits32>, rawData: Channels)
    returns (saves: seq<Action>)
    requires WellShaped(rawData) && (sortedNames == [] || (rawData.height > 0 && rawData.width > 0))
    requires forall k :: 0 <= k < |sortedNames| ==> sortedNames[k] in manifest
    ensures saves == MaskSaves(layerFolder, sortedNames, MasksOf(manifest, rawData), rawData.height, rawData.width)
  {
    saves := [];
    for j := 0 to |sortedNames|
      invariant saves == MaskSaves(layerFolder, sortedNames[..j], MasksOf(manifest, rawData), rawData.height, rawData.width)
    {
      MaskSavesStep(layerFolder, sortedNames, MasksOf(manifest, rawData), rawData.height, rawData.width, j);
      var save := SaveObjectMask(layerFolder, sortedNames[j], manifest, rawData);
      saves := saves + save;
    }
    assert sortedNames[..|sortedNames|] == sortedNames;
  }

  /**
   * The body of `extract_all`'s loop over layers: the actions for one layer
   * and the exception that stops the run, if one does.
   */
  method ExtractLayer(filePath: string, layerFolder: string, layer: Layer,
                      readChannels: (string, seq<string>) -> Option<Channels>)
    returns (actions: seq<Action>, err: Option<ExtractError>)
    requires ReadsWellShaped(readChannels)
    ensures (actions, err) == LayerStep(filePath, layerFolder, layer, readChannels)
  {
    actions, err := [MakeFolder(layerFolder)], None;
    var rawData := readChannels(filePath, layer.channelNames);
    if rawData.None? {
      err := Some(ChannelsUnreadable(layer.name));
      return;
    }
    var sortedNames := SortSet(layer.manifest.Keys);
    // compute_mask is pure: the exception of min() on its first mask is
    // decided by the shape of the channel data alone.
    if sortedNames != [] && (rawData.value.height == 0 || rawData.value.width == 0) {
      err := Some(EmptyMask(layer.name, sortedNames[0]));
      return;
    }
    var saves := SaveLayerMasks(layerFolder, sortedNames, layer.manifest, rawData.value);
    actions := actions + saves;
  }

  /**
   * `extract_all`: the actions it takes, in order, and the exception that
   * stopped it, if one did.
   */
  method ExtractAll(filePath: string, outputDir: Option<string>, loadHeader: string -> Option<ExrImage>,
                    readChannels: (string, seq<string>) -> Option<Channels>)
    returns (actions: seq<Action>, err: Option<ExtractError>)
    requires ReadsWellShaped(readChannels)
    ensures (actions, err) == ExtractionOf(filePath, outputDir, loadHeader, readChannels)
  {
    var outDir := if outputDir.None? then Dirname(filePath) else outputDir.value;
    actions, err := [], None;
    var loaded := loadHeader(filePath);
    if loaded.None? {
      err := Some(HeaderUnreadable);
      return;
    }
    var layers := loaded.value.layers;
    var i := 0;
    while i < |layers|
      invariant 0 <= i <= |layers|
      invariant (actions, None) == LayersExtraction(filePath, outDir, layers[..i], readChannels)
    {
      LayersExtractionStep(filePath, outDir, layers, i, readChannels);
      var more, f := ExtractLayer(filePath, LayerFolder(outDir, filePath, layers[i].name), layers[i], readChannels);
      actions := actions + more;
      if f.Some? {
        err := f;
        StopSticks(filePath, outDir, layers, i + 1, readChannels);
        return;
      }
      i := i + 1;
    }
    assert layers[..i] == layers;
  }
}
