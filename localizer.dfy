/** The runtime side of LocalizedStringKit (LocalizedStringKit.swift): the key a `Localized`
    call looks up, the normalisation of bundle names, and `Localizer`'s cache of found
    bundles and of bundles known to be missing. Finding a bundle on disk and looking a key up
    in it are Foundation calls; they are the parameters `locate` and `translate`. */
module Localizer {
  import opened Common
  import opened Text
  import opened Detection
  import opened Generation

  /** A loaded bundle, known by its location. */
  datatype Bundle = Bundle(url: string)

  // ---------------------------------------------------------------------------------------
  // Keys (LocalizedStringKit.swift:49-58)

  /** The hash input of `Localizer.key` as written: `:` and the extension are appended only
      when the extension is the empty string. */
  function KeyInputAsWritten(value: string, keyExtension: Option<string>): string {
    if keyExtension.Some? && keyExtension.value == "" then value + ":" + keyExtension.value else value
  }

  /** As written, the runtime agrees with the generator's hash input exactly when there is
      no extension or it is empty. */
  lemma KeyInputAsWrittenAgrees(value: string, keyExtension: Option<string>)
    ensures KeyInputAsWritten(value, keyExtension) == KeyInput(value, keyExtension) <==>
      keyExtension.None? || keyExtension.value == ""
  {
    if keyExtension.Some? && keyExtension.value != "" {
      assert |KeyInput(value, keyExtension)| > |value|;
    }
  }

  /** As written, a non-empty extension is dropped: the runtime hashes `Hello` where the
      generator hashed `Hello:greeting`, so the translation is never found. */
  lemma KeyInputAsWrittenDropsExtension()
    ensures KeyInputAsWritten("Hello", Some("greeting")) == "Hello"
    ensures KeyInput("Hello", Some("greeting")) == "Hello:greeting"
  {
  }

  /** The corrected key: the extension is appended whenever one is given, as the comment on
      `Localizer.key` and the generator require; `hash` stands for the MD5 digest in
      hexadecimal. */
  function RuntimeKey(hash: string -> string, value: string, keyExtension: Option<string>): (key: string)
    ensures forall s: LocalizedString :: s.value == value && s.keyExtension == keyExtension ==> key == Key(hash, s)
  {
    var hashInput := value;
    if keyExtension.Some? then hash(hashInput + ":" + keyExtension.value) else hash(hashInput)
  }

  /** The key `localize` looks up as written: the digest of `KeyInputAsWritten`. It is the
      generator's key of a string only when the string has no extension or an empty one. */
  function AsWrittenKey(hash: string -> string, value: string, keyExtension: Option<string>): (key: string)
    ensures keyExtension.None? || keyExtension.value == "" ==>
      forall s: LocalizedString :: s.value == value && s.keyExtension == keyExtension ==> key == Key(hash, s)
  {
    KeyInputAsWrittenAgrees(value, keyExtension);
    hash(KeyInputAsWritten(value, keyExtension))
  }

  /** For a digest without collisions, the key looked up as written is the corrected key
      exactly when there is no extension or it is empty. */
  lemma AsWrittenKeyAgrees(hash: string -> string, value: string, keyExtension: Option<string>)
    requires forall a, b :: hash(a) == hash(b) ==> a == b
    ensures AsWrittenKey(hash, value, keyExtension) == RuntimeKey(hash, value, keyExtension) <==>
      keyExtension.None? || keyExtension.value == ""
  {
    KeyInputAsWrittenAgrees(value, keyExtension);
    assert RuntimeKey(hash, value, keyExtension) == hash(KeyInput(value, keyExtension));
  }

  // ---------------------------------------------------------------------------------------
  // Bundle names (LocalizedStringKit.swift:65-70)

  /** The bundle name `getBundle` searches for: the primary bundle name when none is given,
      with `.bundle` appended unless it already ends with it. */
  function NormalizeBundleName(bundleName: Option<string>, primaryBundleName: string): (r: string)
    ensures EndsWith(r, ".bundle")
    ensures var name := if bundleName.Some? then bundleName.value else primaryBundleName;
      && StartsWith(r, name)
      && (EndsWith(name, ".bundle") <==> r == name)
      && (!EndsWith(name, ".bundle") ==> r == name + ".bundle")
  {
    var name := if bundleName.Some? then bundleName.value else primaryBundleName;
    if EndsWith(name, ".bundle") then name
    else
      assert (name + ".bundle")[..|name|] == name;
      name + ".bundle"
  }

  /** Normalising a normalised name changes nothing. */
  lemma NormalizeBundleNameIdempotent(bundleName: Option<string>, primaryBundleName: string, otherPrimary: string)
    ensures NormalizeBundleName(Some(NormalizeBundleName(bundleName, primaryBundleName)), otherPrimary) ==
      NormalizeBundleName(bundleName, primaryBundleName)
  {
  }

  /** The runtime and the generator name a bundle's directory alike exactly when the name
      ends with `.bundle` or does not contain it at all. */
  lemma NormalizeAgreesWithGenerator(name: string, primaryBundleName: string)
    ensures NormalizeBundleName(Some(name), primaryBundleName) == BundleDirectory(name) <==>
      EndsWith(name, ".bundle") || !Contains(name, ".bundle")
  {
    if EndsWith(name, ".bundle") {
      assert OccursAt(name, ".bundle", |name| - 7);
    } else if Contains(name, ".bundle") {
      assert |NormalizeBundleName(Some(name), primaryBundleName)| == |name| + 7;
    }
  }

  /** Otherwise they differ: the generator keeps a name containing `.bundle`, the runtime
      appends another one. */
  lemma NormalizeDiffersFromGenerator(primaryBundleName: string)
    ensures NormalizeBundleName(Some("Extra.bundle.old"), primaryBundleName) == "Extra.bundle.old.bundle"
    ensures BundleDirectory("Extra.bundle.old") == "Extra.bundle.old"
  {
    assert OccursAt("Extra.bundle.old", ".bundle", 5);
    assert !EndsWith("Extra.bundle.old", ".bundle");
  }

  // ---------------------------------------------------------------------------------------
  // The cache (LocalizedStringKit.swift:28-37, 100-127)

  /** Every cached bundle is the one the search would find now. */
  ghost predicate CacheAgrees(bundleMap: map<string, Bundle>, searchPath: Option<string>, primaryBundleName: string,
                              locate: (Option<string>, string) -> Option<Bundle>) {
    forall name :: name in bundleMap ==>
      locate(searchPath, NormalizeBundleName(Some(name), primaryBundleName)) == Some(bundleMap[name])
  }

  /** Every bundle recorded as missing is one the search would not find now. */
  ghost predicate MissingAgrees(missingBundles: set<string>, searchPath: Option<string>, primaryBundleName: string,
                                locate: (Option<string>, string) -> Option<Bundle>) {
    forall name :: name in missingBundles ==> locate(searchPath, NormalizeBundleName(Some(name), primaryBundleName)).None?
  }

  /** A bundle recorded as missing stays missing when the search path changes, even when it
      could now be found. */
  lemma MissingSurvivesNewSearchPath(primaryBundleName: string)
    ensures var locate := (path: Option<string>, name: string) =>
        if path == Some("/Extra") then Some(Bundle("/Extra/" + name)) else None;
      && MissingAgrees({"Extra.bundle"}, None, primaryBundleName, locate)
      && !MissingAgrees({"Extra.bundle"}, Some("/Extra"), primaryBundleName, locate)
  {
    var locate := (path: Option<string>, name: string) =>
      if path == Some("/Extra") then Some(Bundle("/Extra/" + name)) else None;
    assert locate(Some("/Extra"), NormalizeBundleName(Some("Extra.bundle"), primaryBundleName)).Some?;
  }

  /** What `localize` answers without a cache: the translation, under the key as written,
      from the bundle the search finds, or the value itself when there is none. A missing bundle name means the default
      bundle, not the primary one. */
  function Uncached(hash: string -> string, locate: (Option<string>, string) -> Option<Bundle>,
                    translate: (Bundle, string, string, string) -> string, searchPath: Option<string>,
                    primaryBundleName: string, value: string, keyExtension: Option<string>,
                    bundleName: Option<string>): string
  {
    var name := if bundleName.Some? then bundleName.value else DefaultBundle;
    var found := locate(searchPath, NormalizeBundleName(Some(name), primaryBundleName));
    if found.None? then value else translate(found.value, AsWrittenKey(hash, value, keyExtension), DefaultTable, value)
  }

  /** A string whose bundle cannot be found is shown as written. */
  lemma UncachedMissing(hash: string -> string, locate: (Option<string>, string) -> Option<Bundle>,
                        translate: (Bundle, string, string, string) -> string, searchPath: Option<string>,
                        primaryBundleName: string, value: string, keyExtension: Option<string>, bundleName: Option<string>)
    requires locate(searchPath, NormalizeBundleName(Some(if bundleName.Some? then bundleName.value else DefaultBundle),
                                                    primaryBundleName)).None?
    ensures Uncached(hash, locate, translate, searchPath, primaryBundleName, value, keyExtension, bundleName) == value
  {
  }

  /** The primary bundle name never matters to `localize`: it always passes a name. */
  lemma UncachedIgnoresPrimary(hash: string -> string, locate: (Option<string>, string) -> Option<Bundle>,
                               translate: (Bundle, string, string, string) -> string, searchPath: Option<string>,
                               primaryBundleName: string, otherPrimary: string, value: string,
                               keyExtension: Option<string>, bundleName: Option<string>)
    ensures Uncached(hash, locate, translate, searchPath, primaryBundleName, value, keyExtension, bundleName) ==
      Uncached(hash, locate, translate, searchPath, otherPrimary, value, keyExtension, bundleName)
  {
  }

  /** `Localizer`'s static state: the bundles found so far, the names known to be missing,
      the primary bundle name and the alternate search path. */
  class Localizer {
    var bundleMap: map<string, Bundle>
    var missingBundles: set<string>
    var primaryBundleName: string
    var alternateBundleSearchPath: Option<string>

    constructor ()
      ensures bundleMap == map[] && missingBundles == {}
      ensures primaryBundleName == DefaultBundle && alternateBundleSearchPath == None
    {
      bundleMap := map[];
      missingBundles := {};
      primaryBundleName := DefaultBundle;
      alternateBundleSearchPath := None;
    }

    ghost predicate CacheCoherent(locate: (Option<string>, string) -> Option<Bundle>)
      reads this
    {
      CacheAgrees(bundleMap, alternateBundleSearchPath, primaryBundleName, locate)
    }

    ghost predicate MissingCoherent(locate: (Option<string>, string) -> Option<Bundle>)
      reads this
    {
      MissingAgrees(missingBundles, alternateBundleSearchPath, primaryBundleName, locate)
    }

    /** The setter of `alternateBundleSearchPath`: the cache of found bundles is emptied, so
        it agrees with any search; the missing names are kept. */
    method SetAlternateBundleSearchPath(path: Option<string>)
      modifies this
      ensures alternateBundleSearchPath == path && primaryBundleName == old(primaryBundleName)
      ensures bundleMap == map[] && missingBundles == old(missingBundles)
      ensures forall locate :: CacheCoherent(locate)
    {
      alternateBundleSearchPath := path;
      bundleMap := map[];
    }

    /** `getBundle`: search for the normalised name, under the alternate path first and then
        upwards from the main bundle; `locate` is that search. */
    method GetBundle(bundleName: Option<string>, locate: (Option<string>, string) -> Option<Bundle>)
      returns (bundle: Option<Bundle>)
      ensures bundle == locate(alternateBundleSearchPath, NormalizeBundleName(bundleName, primaryBundleName))
    {
      var name := NormalizeBundleName(bundleName, primaryBundleName);
      bundle := locate(alternateBundleSearchPath, name);
    }

    /** `localize`: a cached bundle is used without a search; a name known to be missing
        gives the value back without a search; otherwise the search result is recorded, as a
        found bundle or as a missing name. `translate` stands for `NSLocalizedString`. With a
        coherent cache the answer is the uncached one. */
    method Localize(hash: string -> string, locate: (Option<string>, string) -> Option<Bundle>,
                    translate: (Bundle, string, string, string) -> string,
                    value: string, comment: string, keyExtension: Option<string>, bundleName: Option<string>)
      returns (s: string)
      modifies this
      ensures primaryBundleName == old(primaryBundleName)
      ensures alternateBundleSearchPath == old(alternateBundleSearchPath)
      ensures var name := if bundleName.Some? then bundleName.value else DefaultBundle;
        var key := AsWrittenKey(hash, value, keyExtension);
        if name in old(bundleMap) then
          && s == translate(old(bundleMap)[name], key, DefaultTable, value)
          && bundleMap == old(bundleMap) && missingBundles == old(missingBundles)
        else if name in old(missingBundles) then
          s == value && bundleMap == old(bundleMap) && missingBundles == old(missingBundles)
        else
          var found := locate(alternateBundleSearchPath, NormalizeBundleName(Some(name), primaryBundleName));
          if found.None? then
            s == value && bundleMap == old(bundleMap) && missingBundles == old(missingBundles) + {name}
          else
            && s == translate(found.value, key, DefaultTable, value)
            && bundleMap == old(bundleMap)[name := found.value] && missingBundles == old(missingBundles)
      ensures old(CacheCoherent(locate)) ==> CacheCoherent(locate)
      ensures old(MissingCoherent(locate)) ==> MissingCoherent(locate)
      ensures old(CacheCoherent(locate)) && old(MissingCoherent(locate)) ==>
        s == Uncached(hash, locate, translate, alternateBundleSearchPath, primaryBundleName, value, keyExtension, bundleName)
    {
      var name := if bundleName.Some? then bundleName.value else DefaultBundle;
      var table := DefaultTable;
      var key := AsWrittenKey(hash, value, keyExtension);
      if name in bundleMap {
        return translate(bundleMap[name], key, table, value);
      }
      if name in missingBundles {
        return value;
      }
      var bundle := GetBundle(Some(name), locate);
      if bundle.None? {
        missingBundles := missingBundles + {name};
        return value;
      }
      bundleMap := bundleMap[name := bundle.value];
      return translate(bundle.value, key, table, value);
    }
  }
}
