# Retention policy configuration of `vanishing`, in Dafny

`vanishing` assigns each range of file sizes a retention duration. This
project models how it builds that policy. The policy lives in
`src/config.rs`. It is a `BTreeMap` from the inclusive byte range
`(lower, upper)` to a `humantime` duration. The model covers three parts:

- **the validating builder** `limits_de`: a fold over the raw
  `(lower, upper, duration_text)` entries of the `limits` list. Entries are
  handled in input order and the first bad entry stops the fold. For each
  entry, an inverted range is rejected first, then a duration that does not
  parse, then an exact `(lower, upper)` key seen before. Overlapping ranges
  are never checked. Modelled by `Limits.Step`, `Limits.Fold` and `Limits.Build`.
- **the default policy** `Config::default`: one range `(0, u64::MAX)` kept
  for 24 hours. Modelled by `ConfigFile.Default`.
- **the loader** `try_read`. A missing file gives the default policy. Any
  other read error is an `Io` error. Text that is present is deserialized,
  and every failure, whether of the TOML document or of an entry, surfaces
  as `ParseFailure`. Modelled by `ConfigFile.TryRead` and `ConfigFile.Parse`.

The key order of the `BTreeMap` is the derived order of the Rust tuple
`(lower, upper)`. It is `Sizes.Less`, and `KeyOrder.OrderedKeys` lists a
policy's keys in that order.

The foreign parsers are function-typed parameters with no fixed meaning:
`DurationParser` stands for `humantime`'s duration grammar, and
`TomlParser` for `basic_toml` plus serde plus the `bytesize` literals, which
either yields the raw entries or a message. The file read is an input
value, `ReadOutcome`. Byte sizes are `nat`s below 2^64 (`Sizes.U64`).

Files: `results.dfy` (Option/Result), `sizes.dfy` (byte ranges and their
order), `durations.dfy`, `limits.dfy` (the builder and its theorems),
`limits_permutation.dfy` (reordering the input), `key_order.dfy` (iteration
order), `config.dfy` (default policy and loader).

Within one entry the code checks the bounds (`src/config.rs:60`) before it
parses the duration (`:67`), and both before the duplicate check (`:70`).
`Limits.InversionCheckedBeforeDuration` shows that an inverted entry with an
unparsable duration is reported as `InvertedRange`. `InvertedRange`,
`InvalidDuration` and `DuplicateRange` are the model's names for the three
rejections. The code reports each one as a `ParseFailure` string, so the model
keeps them only as the cause inside `ParseFailure(Rejected(..))`.

## Model

| member | source | states |
|---|---|---|
| `Limits.Step` | src/config.rs:60-74 | one entry succeeds iff its bounds are ordered, its duration parses and its key is new; it then adds exactly that key with the parsed duration and leaves the other entries alone; a failure is the error `Reports` assigns (inversion, then duration, then duplicate) |
| `Limits.Fold` | src/config.rs:58-77 | a successful fold only grows the map: every key already inserted stays, with its duration unchanged |
| `Limits.Build` | src/config.rs:58-77 | the build from an empty map succeeds iff the entries are acceptable (ordered bounds, parsable durations, distinct keys); the result holds exactly the entries' keys, each mapped to its own parsed duration |
| `Limits.FoldOutcome` | src/config.rs:58-77 | the fold from a partial map succeeds iff every entry is acceptable, keys are pairwise distinct and none is already present; the result then holds the old keys plus one key per entry, each mapped to its own parsed duration |
| `Limits.BuildSucceedsIff` | src/config.rs:59-77 | the build succeeds iff every entry has `lower <= upper`, every duration text parses, and all `(lower, upper)` keys are pairwise distinct |
| `Limits.BuildContents` | src/config.rs:58-77 | on success the key set is exactly the entries' keys, each key maps to its entry's parsed duration, there are as many keys as entries, and every key has `lower <= upper` |
| `Limits.InvertedEntryRejectsAll` | src/config.rs:60-64 | one entry with `lower > upper` anywhere in the list makes the whole build fail, so no partial map is returned |
| `Limits.RepeatedKeyRejected` | src/config.rs:68-72 | an entry given twice is rejected as `DuplicateRange` even with an identical duration: duplication is decided by the key alone |
| `Limits.OverlapAccepted` | src/config.rs:59-75 | `(0,100)` and `(50,150)` both go in and size 75 matches both ranges: overlap is not checked |
| `Limits.FoldFirstError` | src/config.rs:59-74 | a failing fold fails at some entry after an acceptable prefix with no clash against the map, and the error is the one that entry earns |
| `Limits.FirstErrorWins` | src/config.rs:59-72 | the build fails iff the input is not acceptable; the reported error belongs to the first entry that breaks an acceptable prefix, with inversion before duration before duplicate |
| `Limits.InversionCheckedBeforeDuration` | src/config.rs:60-67 | an inverted entry whose duration text also fails to parse is reported as `InvertedRange` |
| `LimitsPermutation.PermutationInvariant` | src/config.rs:59-77 | reordering the entries keeps success or failure unchanged, and two successful builds of reordered inputs give the same map |
| `Sizes.LessIsStrictTotalOrder` | src/config.rs:34 | the tuple order on `(lower, upper)` keys is irreflexive, asymmetric, transitive and total |
| `KeyOrder.OrderedKeys` | src/config.rs:34 | lists a policy's keys strictly increasing in tuple order, each key once and no other |
| `KeyOrder.OrderIsUnique` | src/config.rs:34 | two strictly increasing key lists with the same keys are equal, so the iteration order is fixed by the keys |
| `ConfigFile.Parse` | src/config.rs:25-28 | every failure to deserialize text is a `ParseFailure`: a malformed document carries the parser's message, and a rejected entry carries the error of the first entry that breaks an acceptable prefix (inversion, then duration, then duplicate); success happens iff the document yields entries that the builder accepts, and then holds exactly their keys and durations |
| `ConfigFile.TryRead` | src/config.rs:11-29 | a missing file yields the default policy; any other read error yields `Io` with that cause; text that was read yields exactly what `Parse` makes of it, so success iff it parses and validates, with the file's own keys and durations |
| `ConfigFile.Default` | src/config.rs:37-46 | the default policy has the single key `(0, 2^64-1)` with 86400 seconds, so every size lies in exactly that one range |
| `ConfigFile.FileContentsAreLoaded` | src/config.rs:12-28 | an acceptable file is loaded with its own keys, and the result equals the default only when the file itself names just `(0, u64::MAX)` with one day |
| `ConfigFile.DefaultIsBuildable` | src/config.rs:37-46 | the default policy is what the builder produces from the single entry `(0, u64::MAX)` with a one-day duration |

## Left out

- `src/main.rs` is not part of this model: the argument-count check, locating the user configuration directory and printing the configuration are process plumbing. The print's key order is covered by `KeyOrder`, but its text is not.
- The file read (`fs::read_to_string`) and the `log::debug!` call are I/O. The read is an input `ReadOutcome`, and only `NotFound` is told apart from other error kinds, as the code does.
- The TOML grammar, the serde shape of the document and the `bytesize` literal grammar are foreign code. `TomlParser` is a parameter that yields the raw entries or a message, so size literals arrive already decoded as `u64`.
- The `humantime` duration grammar is foreign code. `DurationParser` is a parameter, and `Durations.Duration` only records seconds and nanoseconds.
- The text of error messages (`thiserror` display strings, `format!`) is not modelled. `ParseFailure` carries a structured cause instead of the formatted string.
- A size lookup and any tie-break between overlapping ranges are not modelled, because the code defines neither. `Sizes.Matching` only names the ranges a size falls into.
