# ABI merge model

A Dafny model of the ABI merge step of the contracts build scripts
(`scripts/abi.js`). The script scans the compiler's output directory for
JSON artifacts and loads each one in scan order. For each artifact that
loads and has an `abi` array, it appends fragments to one accumulator:

- the artifact whose path ends in `IDiamondProxy.json` appends its whole ABI;
- every other artifact appends only the fragments whose `type` is `"error"`;
- an artifact whose processing throws is skipped silently.

The accumulator is then written out as the merged ABI.

Files:

- `AbiMerge.dfy`, module `AbiMerge`, holds the following.
  - The data model:
    - `Fragment`: a nullish element, or an object with an optional `type` and opaque other data.
    - `Load`: `LoadFailed`, `NoAbi` or `Abi(fragments)`.
    - `Artifact`: a path plus its load outcome.
  - The imperative loop `MergeAbi`, which mirrors `forEach` and `push` with a `seq` accumulator.
  - Its specification `Merge`, built from the per-file `Contribution`.
  - The lemmas about them.
- `Subsequences.dfy`, module `Subsequences`: order-preserving subsequences. They are used to say that fragments are kept verbatim and in order.

The scan also picks up the merged output of an earlier run (`out/abi.json`).
That file is a bare JSON array with no `abi` field, so it is a `NoAbi`
artifact and contributes nothing.

The scan order is an input. `Merge` is a function of that sequence, so two
runs over the same scan produce the same list.

Per-file atomicity works like this. The destructuring callback `({ type }) => …` throws on a
`null` or missing element. Both the `filter` call and the spread of its
result are evaluated before `push` runs. So a file whose filter throws
contributes nothing, not even the `error` fragments that come before the
offending element. The proxy branch only spreads the array, which does not
throw on nullish elements. Those elements are therefore appended like any
other.

## Model

| member | source | states |
|---|---|---|
| `AbiMerge.MergeAbi` | scripts/abi.js:9-22 | The loop over the scanned files, with its accumulator, computes exactly `Merge(files)`. Its result is an order-preserving subsequence of all loaded ABIs concatenated. |
| `AbiMerge.FilterErrors` | scripts/abi.js:18 | When the error filter does not throw, it returns at most as many fragments as it was given, and every one is an `error` fragment. |
| `AbiMerge.FilterErrorsThrowsIff` | scripts/abi.js:18 | The filter throws if and only if some element of the `abi` array is nullish. |
| `AbiMerge.FilterErrorsKeepsExactlyErrors` | scripts/abi.js:18 | A filter that does not throw keeps exactly the `error` fragments, in their original order. The result is a subsequence of the input, holds only `error` fragments, and is as long as the number of `error` positions in the input. |
| `AbiMerge.ContributionWithoutAbi` | scripts/abi.js:12-14 | A file that fails to load, or has no `abi`, contributes no fragments. |
| `AbiMerge.ContributionOfProxy` | scripts/abi.js:15-16 | A file whose path ends in `IDiamondProxy.json` contributes its whole `abi`, unchanged and in order. |
| `AbiMerge.ContributionOfOther` | scripts/abi.js:17-18 | Any other file throws if and only if its `abi` has a nullish element. When it throws, it contributes nothing (atomicity). Otherwise it contributes exactly its `error` fragments, in order. |
| `AbiMerge.ContributionIsSubsequence` | scripts/abi.js:14-19 | Whatever a file contributes is an order-preserving subsequence of its own `abi`. |
| `AbiMerge.MergeSnoc` | scripts/abi.js:11-22 | Processing one more file appends exactly that file's contribution to what the files before it produced. |
| `AbiMerge.MergeAppend` | scripts/abi.js:11-22 | Merging a concatenation of scans gives the concatenation of their merges. The output is the contributions in scan order, and the output length is the sum of the contribution lengths. |
| `AbiMerge.MergePrefix` | scripts/abi.js:16-18 | Each iteration only appends: the merge of any prefix of the scan is a prefix of the full merge. |
| `AbiMerge.ThrowingFileIsSkipped` | scripts/abi.js:12-21 | A file whose processing throws leaves the merge as if it were absent, and the files after it are still processed. |
| `AbiMerge.ProxyAbiIsContiguous` | scripts/abi.js:15-16 | The proxy file's whole ABI appears as one block at its scan position. The merge of the files before it comes first, then that block, then the merge of the files after it. |
| `AbiMerge.MergeWithoutProxyIsErrorsOnly` | scripts/abi.js:17-18 | If no scanned path ends in `IDiamondProxy.json`, every merged fragment is an `error` fragment. |
| `AbiMerge.MergeIsSubsequenceOfAll` | scripts/abi.js:16-18 | The merge is an order-preserving subsequence of all loaded ABIs concatenated. Nothing is rewritten or reordered. |
| `AbiMerge.MergeLengthBound` | scripts/abi.js:16-18 | The merged list is never longer than the total number of fragments in all loaded `abi` arrays. |
| `AbiMerge.AllFragmentsMembers` | scripts/abi.js:14 | Every fragment of the concatenated loaded ABIs belongs to the `abi` of some scanned file. |
| `AbiMerge.MergedFragmentsAreVerbatim` | scripts/abi.js:16-18 | Every merged fragment appears verbatim in the `abi` of some scanned file. |
| `AbiMerge.NoDeduplication` | scripts/abi.js:16-18 | No deduplication: a contribution that appears twice in the scan is appended twice. |
| `AbiMerge.ScenarioThreeArtifacts` | scripts/abi.js:9-22 | Worked example with the scan order A, B, proxy. A contributes nothing, B contributes its single `error` fragment, and the proxy contributes its whole ABI. |
| `AbiMerge.ScenarioUnparsableFile` | scripts/abi.js:12-21 | Worked example: an unparsable file among valid ones is skipped, and the merge holds only the valid file's fragments. |
| `AbiMerge.SuffixMatchSelectsWholeAbi` | scripts/abi.js:15 | The dispatch is a suffix test on the whole path. A file named `MockIDiamondProxy.json` also contributes its whole ABI. |

## Left out

- The recursive directory scan (`glob.sync`, scripts/abi.js:7) is filesystem I/O with an unspecified order. The scan result is an input sequence.
- Reading and parsing each file with `require` (scripts/abi.js:13) is a foreign call. Its outcome is the `Load` datatype.
- JavaScript truthiness of `j.abi` is not modelled, and neither is an `abi` value that is truthy but not an array (scripts/abi.js:14). Such an `abi` counts as `LoadFailed`. Non-array objects and numbers throw in `filter` and in the spread, so for them this is exact. A non-empty string `abi` is the exception: in the proxy file it would be spread into single characters, and the model does not capture that. An empty `abi` array is truthy and is `Abi([])`.
- Serialising the result with `JSON.stringify` and writing it with `fs.writeFileSync` (scripts/abi.js:24) is output I/O with no logic of its own.
- The async wrapper (scripts/abi.js:2, 25) is plumbing only.
- A `RangeError` that `push(...arr)` can raise for an extremely large spread is an engine limit. It is not modelled.
- The contents of a fragment other than its `type` are an opaque type parameter. The merge never inspects or changes them.
- The typed re-export module src-ts/index.ts only loads two JSON files and asserts their static types. It has no behaviour to model.
