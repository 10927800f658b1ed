/** How the sweep classifies the files a wildcard owns: its sidecar `<w>.json`, its images
    `<w>.<ext>` and `<w>.preview.<ext>`, and everything else. */
module Classification {
  import opened Text
  import opened AssetRules

  /** The extensions the sweep accepts, compared lower-cased. */
  predicate Accepted(ext: string)
  {
    Lower(ext) == ".json" || Lower(ext) in ImageExtensions
  }

  /** The classification of a path with a stem and an extension depends on the extension and on
      the path before it: an extension the sweep does not accept makes the file non-conforming. */
  lemma ClassifyByExtension(w: string, ext: string, activeUpper: set<string>)
    requires Extension(ext) && HasStem(w)
    ensures ConformingType(w + ext) <==> Accepted(ext)
    ensures BaseIdentifier(w + ext) == BaseIdentifier(w + ".json")
  {
    SplitExtAppend(w, ext);
    SplitExtAppend(w, ".json");
    LastSegmentAppend(w, ext);
    var last := LastSegment(w);
    SplitNoSlash(last);
    assert LastSegment(last) == last;
    assert HasStem(last);
    SplitExtAppend(last, ext);
  }

  /** A file whose extension the sweep does not accept is archived whatever is live. */
  lemma OtherExtensionNonConforming(w: string, ext: string, activeUpper: set<string>)
    requires Extension(ext) && HasStem(w) && !Accepted(ext)
    ensures Classify(w + ext, activeUpper) == NonConforming
  {
    ClassifyByExtension(w, ext, activeUpper);
  }

  /** A file whose name has no '.' at all has no extension and is archived whatever is live. */
  lemma NoExtensionNonConforming(p: string, activeUpper: set<string>)
    requires '.' !in LastSegment(p)
    ensures Classify(p, activeUpper) == NonConforming
  {
    var last := LastSegment(p);
    LastIndexOfUnique(last, '.', -1);
    assert SplitExt(last).1 == "";
  }

  /** The sidecar `<w>.json` or an image `<w>.<ext>` of wildcard `w` is kept exactly when `w` is
      live, ignoring ASCII case; other extensions are non-conforming. */
  lemma AssetVerdict(w: string, ext: string, active: seq<string>)
    requires Extension(ext) && HasStem(w)
    requires !EndsWith(Lower(w), ".preview")
    ensures Classify(w + ext, UpperSet(active)) ==
      if !Accepted(ext) then NonConforming else if Upper(w) in UpperSet(active) then Keep else Stale
  {
    ClassifyByExtension(w, ext, UpperSet(active));
    SplitExtAppend(w, ext);
  }

  /** The preview image `<w>.preview.<ext>` of wildcard `w` is kept exactly when `w` is live. */
  lemma PreviewVerdict(w: string, ext: string, active: seq<string>)
    requires Extension(ext) && Accepted(ext)
    ensures Classify(w + ".preview" + ext, UpperSet(active)) ==
      if Upper(w) in UpperSet(active) then Keep else Stale
  {
    var v := w + ".preview";
    PreviewSuffix(w);
    ClassifyByExtension(v, ext, UpperSet(active));
    SplitExtAppend(v, ext);
    assert v[..|v| - 8] == w;
  }

  /** A live wildcard whose own name ends in ".preview" still loses its sidecar: the sweep reads
      `<w>.preview.json` as the preview image of `w`, which is not live. */
  lemma PreviewNamedWildcardLosesSidecar(w: string, ext: string)
    requires Extension(ext) && Accepted(ext)
    ensures Classify(w + ".preview" + ext, UpperSet([w + ".preview"])) == Stale
  {
    var v := w + ".preview";
    PreviewVerdict(w, ext, [v]);
    assert UpperSet([v]) == {Upper(v)};
    assert |Upper(w)| != |Upper(v)|;
  }

  /** `<w>.preview` has a stem and ends in ".preview" under any casing of `w`. */
  lemma PreviewSuffix(w: string)
    ensures HasStem(w + ".preview")
    ensures EndsWith(Lower(w + ".preview"), ".preview")
  {
    var v := w + ".preview";
    LastSegmentAppend(w, ".preview");
    var last := LastSegment(v);
    assert last[|last| - 1] == 'w';
    LowerAppend(w, ".preview");
    assert Lower(".preview") == ".preview";
  }
}
