/** The ABI merge step of the artifact aggregator: every compiled artifact
    contributes fragments to one merged ABI list, in scan order. The proxy
    interface artifact contributes its whole ABI, every other artifact only
    its `error` fragments, and an artifact whose processing throws
    contributes nothing. */
module AbiMerge {
  import opened Subsequences

  datatype Option<+T> = None | Some(value: T)

  /** One element of an artifact's `abi` array. `Nullish` is a `null` (or
      missing) element, on which destructuring `{ type }` throws; `Obj` is
      any other element, with its `type` field if it has one and the rest of
      its content kept opaque. */
  datatype Fragment<D> = Nullish | Obj(kind: Option<string>, data: D)

  /** What loading an artifact file yields: it threw while reading or
      parsing, it parsed but has no (truthy) `abi` array, or it has one. */
  datatype Load<D> = LoadFailed | NoAbi | Abi(fragments: seq<Fragment<D>>)

  /** A scanned file: its path and the outcome of loading it. */
  datatype Artifact<D> = Artifact(path: string, load: Load<D>)

  /** The file name whose whole ABI is merged. */
  const ProxyArtifactName := "IDiamondProxy.json"

  /** The `type` value that selects a fragment from every other artifact. */
  const ErrorType := "error"

  /** `String.prototype.endsWith`. */
  predicate EndsWith(s: string, suffix: string)
  {
    |suffix| <= |s| && s[|s| - |suffix|..] == suffix
  }

  predicate IsProxyArtifact<D>(a: Artifact<D>)
  {
    EndsWith(a.path, ProxyArtifactName)
  }

  /** The filter predicate `({ type }) => type === 'error'` on an element it
      does not throw on. */
  predicate IsError<D>(f: Fragment<D>)
  {
    f.Obj? && f.kind == Some(ErrorType)
  }

  /** `fs.filter(({ type }) => type === 'error')`: `None` when the callback
      throws on some element, otherwise the kept elements. Whether it throws
      does not depend on the order the callback visits the elements in. */
  function FilterErrors<D>(fs: seq<Fragment<D>>): (r: Option<seq<Fragment<D>>>)
    ensures r.Some? ==> |r.value| <= |fs|
    ensures r.Some? ==> forall f :: f in r.value ==> IsError(f)
  {
    if fs == [] then Some([])
    else
      var last := fs[|fs| - 1];
      match FilterErrors(fs[..|fs| - 1])
      case None => None
      case Some(kept) =>
        if last.Nullish? then None
        else if IsError(last) then Some(kept + [last])
        else Some(kept)
  }

  /** The fragments an artifact carries, or none when it has no `abi`. */
  function LoadedAbi<D>(a: Artifact<D>): seq<Fragment<D>>
  {
    if a.load.Abi? then a.load.fragments else []
  }

  /** Whether processing the artifact throws inside the `try` block, before
      anything is pushed: loading fails, or the error filter throws. */
  predicate Throws<D>(a: Artifact<D>)
  {
    a.load.LoadFailed?
    || (a.load.Abi? && !IsProxyArtifact(a) && FilterErrors(a.load.fragments).None?)
  }

  /** What one iteration of the loop appends to the accumulator. */
  function Contribution<D>(a: Artifact<D>): seq<Fragment<D>>
  {
    match a.load
    case LoadFailed => []
    case NoAbi => []
    case Abi(fs) =>
      if IsProxyArtifact(a) then fs
      else
        match FilterErrors(fs)
        case None => []
        case Some(kept) => kept
  }

  /** The merged ABI of the artifacts, in scan order. */
  function Merge<D>(files: seq<Artifact<D>>): seq<Fragment<D>>
  {
    if files == [] then []
    else Merge(files[..|files| - 1]) + Contribution(files[|files| - 1])
  }

  /** All fragments of all artifacts that have an `abi`, in scan order. */
  function AllFragments<D>(files: seq<Artifact<D>>): seq<Fragment<D>>
  {
    if files == [] then []
    else AllFragments(files[..|files| - 1]) + LoadedAbi(files[|files| - 1])
  }

  /** Positions of the fragments the error filter keeps. */
  ghost function ErrorPositions<D>(fs: seq<Fragment<D>>): set<int>
  {
    set i | 0 <= i < |fs| && IsError(fs[i])
  }

  /** The merge loop: visit the files in scan order and push each file's
      selection onto one accumulator; a file whose processing throws is
      skipped. */
  method MergeAbi<D>(files: seq<Artifact<D>>) returns (abi: seq<Fragment<D>>)
    ensures abi == Merge(files)
    ensures IsSubsequence(abi, AllFragments(files))
  {
    abi := [];
    for i := 0 to |files|
      invariant abi == Merge(files[..i])
    {
      var f := files[i];
      assert files[..i + 1][..i] == files[..i];
      match f.load {
        case LoadFailed =>
          // `require` threw: the catch block does nothing
        case NoAbi =>
        case Abi(fs) =>
          if EndsWith(f.path, ProxyArtifactName) {
            abi := abi + fs;
          } else {
            var kept := FilterErrors(fs);
            if kept.Some? {
              abi := abi + kept.value;
            }
            // otherwise the filter threw before `push` ran
          }
      }
    }
    assert files[..|files|] == files;
    MergeIsSubsequenceOfAll(files);
  }

  // ---------------------------------------------------------------------
  // The error filter

  /** The filter throws exactly when some element is nullish. */
  lemma {:induction false} FilterErrorsThrowsIff<D>(fs: seq<Fragment<D>>)
    ensures FilterErrors(fs).None? <==> exists i :: 0 <= i < |fs| && fs[i].Nullish?
  {
    if fs != [] {
      var init := fs[..|fs| - 1];
      FilterErrorsThrowsIff(init);
      if exists i :: 0 <= i < |init| && init[i].Nullish? {
        var i :| 0 <= i < |init| && init[i].Nullish?;
        assert fs[i].Nullish?;
      }
      if exists i :: 0 <= i < |fs| && fs[i].Nullish? {
        var i :| 0 <= i < |fs| && fs[i].Nullish?;
        if i < |init| {
          assert init[i].Nullish?;
        }
      }
    }
  }

  /** When the filter does not throw, it keeps exactly the `error`
      fragments, in their original order: its result is a subsequence of
      the input, consists of `error` fragments only, and is as long as the
      input has `error` fragments. */
  lemma {:induction false} FilterErrorsKeepsExactlyErrors<D>(fs: seq<Fragment<D>>)
    requires FilterErrors(fs).Some?
    ensures IsSubsequence(FilterErrors(fs).value, fs)
    ensures forall f :: f in FilterErrors(fs).value ==> IsError(f)
    ensures |FilterErrors(fs).value| == |ErrorPositions(fs)|
  {
    if fs != [] {
      var n := |fs| - 1;
      var init := fs[..n];
      FilterErrorsKeepsExactlyErrors(init);
      var kept := FilterErrors(init).value;
      assert ErrorPositions(fs) == ErrorPositions(init) + (if IsError(fs[n]) then {n} else {});
      if IsError(fs[n]) {
        var r := kept + [fs[n]];
        assert r[..|r| - 1] == kept;
      } else {
        assert IsSubsequence(kept, fs);
      }
    }
  }

  // ---------------------------------------------------------------------
  // What one file contributes

  /** A file that fails to load, or has no `abi`, contributes nothing. */
  lemma ContributionWithoutAbi<D>(a: Artifact<D>)
    requires !a.load.Abi?
    ensures Contribution(a) == []
  {
  }

  /** The proxy artifact contributes its whole ABI, unchanged and in order. */
  lemma ContributionOfProxy<D>(a: Artifact<D>)
    requires a.load.Abi? && IsProxyArtifact(a)
    ensures Contribution(a) == a.load.fragments
  {
  }

  /** Every other artifact contributes exactly its `error` fragments, in
      their order, unless one of its fragments is nullish: then the filter
      throws before `push`, and the artifact contributes nothing at all,
      not even the `error` fragments before the nullish one. */
  lemma ContributionOfOther<D>(a: Artifact<D>)
    requires a.load.Abi? && !IsProxyArtifact(a)
    ensures (exists i :: 0 <= i < |a.load.fragments| && a.load.fragments[i].Nullish?)
              <==> Throws(a)
    ensures Throws(a) ==> Contribution(a) == []
    ensures !Throws(a) ==>
              && IsSubsequence(Contribution(a), a.load.fragments)
              && (forall f :: f in Contribution(a) ==> IsError(f))
              && |Contribution(a)| == |ErrorPositions(a.load.fragments)|
  {
    FilterErrorsThrowsIff(a.load.fragments);
    if !Throws(a) {
      FilterErrorsKeepsExactlyErrors(a.load.fragments);
    }
  }

  /** Whatever a file contributes is taken, in order, from its own ABI. */
  lemma {:induction false} ContributionIsSubsequence<D>(a: Artifact<D>)
    ensures IsSubsequence(Contribution(a), LoadedAbi(a))
  {
    match a.load
    case LoadFailed =>
    case NoAbi =>
    case Abi(fs) =>
      if IsProxyArtifact(a) {
        SubsequenceReflexive(fs);
      } else if FilterErrors(fs).Some? {
        FilterErrorsKeepsExactlyErrors(fs);
      }
  }

  // ---------------------------------------------------------------------
  // The merged list

  /** Scanning one more file appends that file's contribution. */
  lemma MergeSnoc<D>(files: seq<Artifact<D>>, f: Artifact<D>)
    ensures Merge(files + [f]) == Merge(files) + Contribution(f)
  {
    assert (files + [f])[..|files|] == files;
  }

  /** The merge of a concatenation is the concatenation of the merges: the
      output is the per-file contributions in scan order, and processing
      later files only appends. */
  lemma {:induction false} MergeAppend<D>(xs: seq<Artifact<D>>, ys: seq<Artifact<D>>)
    ensures Merge(xs + ys) == Merge(xs) + Merge(ys)
    decreases |ys|
  {
    if ys == [] {
      assert xs + ys == xs;
    } else {
      var init, last := ys[..|ys| - 1], ys[|ys| - 1];
      calc {
        Merge(xs + ys);
        { assert xs + ys == (xs + init) + [last]; }
        Merge((xs + init) + [last]);
        { MergeSnoc(xs + init, last); }
        Merge(xs + init) + Contribution(last);
        { MergeAppend(xs, init); }
        Merge(xs) + Merge(init) + Contribution(last);
        { MergeSnoc(init, last); assert init + [last] == ys; }
        Merge(xs) + Merge(ys);
      }
    }
  }

  /** Earlier contributions are never altered: the merge of a prefix of the
      scan is a prefix of the merge. */
  lemma MergePrefix<D>(files: seq<Artifact<D>>, k: nat)
    requires k <= |files|
    ensures Merge(files[..k]) <= Merge(files)
  {
    MergeAppend(files[..k], files[k..]);
    assert files[..k] + files[k..] == files;
  }

  /** A file whose processing throws is skipped: the merge is the same as if
      it were not in the scan at all, and the files after it are still
      processed. */
  lemma ThrowingFileIsSkipped<D>(xs: seq<Artifact<D>>, f: Artifact<D>, ys: seq<Artifact<D>>)
    requires Throws(f)
    ensures Merge(xs + [f] + ys) == Merge(xs + ys)
  {
    MergeAppend(xs + [f], ys);
    MergeAppend(xs, ys);
    assert (xs + [f])[..|xs|] == xs;
  }

  /** The proxy artifact's whole ABI appears as one contiguous block, in its
      scan position, between the merges of the files before and after it. */
  lemma ProxyAbiIsContiguous<D>(files: seq<Artifact<D>>, i: nat)
    requires i < |files| && files[i].load.Abi? && IsProxyArtifact(files[i])
    ensures Merge(files) == Merge(files[..i]) + files[i].load.fragments + Merge(files[i + 1..])
  {
    var pre, upTo, post := files[..i], files[..i + 1], files[i + 1..];
    assert files == upTo + post;
    assert upTo[..|upTo| - 1] == pre;
    assert Merge(upTo) == Merge(pre) + Contribution(files[i]);
    MergeAppend(upTo, post);
    ContributionOfProxy(files[i]);
  }

  /** Without a proxy artifact in the scan, the merge holds `error`
      fragments only. */
  lemma {:induction false} MergeWithoutProxyIsErrorsOnly<D>(files: seq<Artifact<D>>)
    requires forall i :: 0 <= i < |files| ==> !IsProxyArtifact(files[i])
    ensures forall f :: f in Merge(files) ==> IsError(f)
  {
    if files != [] {
      var last := files[|files| - 1];
      MergeWithoutProxyIsErrorsOnly(files[..|files| - 1]);
      if last.load.Abi? {
        ContributionOfOther(last);
      }
    }
  }

  /** The merge is taken, in order and without rewriting, from the
      concatenation of all loaded ABIs. */
  lemma {:induction false} MergeIsSubsequenceOfAll<D>(files: seq<Artifact<D>>)
    ensures IsSubsequence(Merge(files), AllFragments(files))
  {
    if files != [] {
      var init := files[..|files| - 1];
      MergeIsSubsequenceOfAll(init);
      ContributionIsSubsequence(files[|files| - 1]);
      SubsequenceConcat(Merge(init), AllFragments(init),
                        Contribution(files[|files| - 1]), LoadedAbi(files[|files| - 1]));
    }
  }

  /** The merged list is never longer than all loaded ABIs together. */
  lemma MergeLengthBound<D>(files: seq<Artifact<D>>)
    ensures |Merge(files)| <= |AllFragments(files)|
  {
    MergeIsSubsequenceOfAll(files);
    SubsequenceLength(Merge(files), AllFragments(files));
  }

  /** Every merged fragment appears verbatim in the ABI of some scanned
      file. */
  lemma {:induction false} AllFragmentsMembers<D>(files: seq<Artifact<D>>, x: Fragment<D>)
    requires x in AllFragments(files)
    ensures exists i :: 0 <= i < |files| && files[i].load.Abi? && x in files[i].load.fragments
  {
    var n := |files| - 1;
    if x in LoadedAbi(files[n]) {
      assert files[n].load.Abi?;
    } else {
      AllFragmentsMembers(files[..n], x);
      var i :| 0 <= i < n && files[..n][i].load.Abi? && x in files[..n][i].load.fragments;
      assert files[i] == files[..n][i];
    }
  }

  lemma MergedFragmentsAreVerbatim<D>(files: seq<Artifact<D>>, x: Fragment<D>)
    requires x in Merge(files)
    ensures exists i :: 0 <= i < |files| && files[i].load.Abi? && x in files[i].load.fragments
  {
    MergeIsSubsequenceOfAll(files);
    SubsequenceMembers(Merge(files), AllFragments(files));
    AllFragmentsMembers(files, x);
  }

  /** No deduplication: a file scanned twice contributes twice. */
  lemma NoDeduplication<D>(files: seq<Artifact<D>>, f: Artifact<D>)
    ensures Merge(files + [f, f]) == Merge(files) + Contribution(f) + Contribution(f)
  {
    MergeAppend(files, [f, f]);
    assert [f, f][..1] == [f];
    assert Merge([f]) == Contribution(f) by {
      assert [f][..0] == [];
    }
  }

  // ---------------------------------------------------------------------
  // Worked scenarios (fragment data is the fragment's `name`)

  /** Three artifacts scanned in the order A, B, proxy: A contributes
      nothing, B its one `error` fragment, the proxy its whole ABI. */
  lemma ScenarioThreeArtifacts()
    ensures
      var a := Artifact("out/A.sol/A.json", Abi([Obj(Some("function"), "f")]));
      var b := Artifact("out/B.sol/B.json",
                        Abi([Obj(Some("error"), "E1"), Obj(Some("event"), "Ev")]));
      var p := Artifact("out/IDiamondProxy.sol/IDiamondProxy.json",
                        Abi([Obj(Some("error"), "E2"), Obj(Some("function"), "g")]));
      Merge([a, b, p]) == [Obj(Some("error"), "E1"), Obj(Some("error"), "E2"), Obj(Some("function"), "g")]
  {
    var a := Artifact("out/A.sol/A.json", Abi([Obj(Some("function"), "f")]));
    var b := Artifact("out/B.sol/B.json",
                      Abi([Obj(Some("error"), "E1"), Obj(Some("event"), "Ev")]));
    var p := Artifact("out/IDiamondProxy.sol/IDiamondProxy.json",
                      Abi([Obj(Some("error"), "E2"), Obj(Some("function"), "g")]));
    assert !IsProxyArtifact(a) && !IsProxyArtifact(b) && IsProxyArtifact(p);
    assert Contribution(a) == [];
    assert Contribution(b) == [Obj(Some("error"), "E1")];
    assert [a, b, p][..2] == [a, b] && [a, b][..1] == [a] && [a][..0] == [];
    assert Merge([a]) == [];
    assert Merge([a, b]) == [Obj(Some("error"), "E1")];
    assert Contribution(p) == p.load.fragments;
  }

  /** A file that does not parse among valid artifacts: the merge completes
      and holds only the valid artifacts' fragments. */
  lemma ScenarioUnparsableFile()
    ensures
      var bad := Artifact("out/Broken.sol/Broken.json", LoadFailed);
      var b := Artifact("out/B.sol/B.json", Abi([Obj(Some("error"), "E1")]));
      Merge([bad, b]) == [Obj(Some("error"), "E1")]
  {
    var bad := Artifact("out/Broken.sol/Broken.json", LoadFailed);
    var b := Artifact("out/B.sol/B.json", Abi([Obj(Some("error"), "E1")]));
    assert !IsProxyArtifact(b);
    assert [bad, b][..1] == [bad] && [bad][..0] == [];
    assert Merge([bad]) == [];
    assert Contribution(b) == [Obj(Some("error"), "E1")];
  }

  /** The path test is a suffix test, not a file-name test: any file name
      ending in `IDiamondProxy.json` selects the whole ABI. */
  lemma SuffixMatchSelectsWholeAbi()
    ensures
      var mock := Artifact("out/MockIDiamondProxy.sol/MockIDiamondProxy.json",
                           Abi([Obj(Some("function"), "g")]));
      Contribution(mock) == [Obj(Some("function"), "g")]
  {
    var path := "out/MockIDiamondProxy.sol/MockIDiamondProxy.json";
    assert path[|path| - 18..] == ProxyArtifactName;
  }
}
