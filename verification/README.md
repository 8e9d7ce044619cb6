# Stevedores AI engine: package manifest utility, modelled in Dafny

The Stevedores repository ships one piece of real logic: a small Rust crate,
compiled to WebAssembly, that handles AI agent package manifests in the
browser. A manifest (`AgentPackage`) has a name, a version, a container image
URI and a checksum. The crate:

- builds a manifest and derives its checksum from `name:version:image_uri`
  (SHA-256, rendered as lowercase hex);
- validates a manifest field by field, collecting one message per broken rule,
  in a fixed order, joined by `"; "`;
- checks versions with a loose form of the MAJOR.MINOR.PATCH normal version of
  Semantic Versioning 2.0.0 (section 2): exactly three dot-separated pieces,
  each a `u32`;
- verifies a checksum by recomputing it and comparing strings;
- validates a manifest given as JSON, turning a parse failure into a fixed
  error result;
- formats a one-line status display.

The model has five modules, one per concern of `crate-ai-engine/src/lib.rs`:

- `Wrappers` (wrappers.dfy): the `Option` type.
- `Strings` (strings.dfy): the Rust string library calls the crate relies on:
  `split` on a char, `join`, ASCII `to_uppercase`, and the ASCII character
  classes (digits, letters, alphanumerics) the other modules share.
- `Semver` (semver.dfy): `str::parse::<u32>` and `is_valid_semver`.
- `Checksum` (checksum.dfy): Base16 encoding as in RFC 4648 section 8
  (lowercase, two digits per byte, high nibble first), its inverse, and
  `compute_checksum` / `verify_checksum`.
- `Manifest` (manifest.dfy): `AgentPackage`, `ValidationResult`,
  `AgentPackage::new`, `AgentPackage::validate`, `validate_package_json` and
  `format_package_status`.

`AgentPackage` is a value in the crate: it is cloned, and no method takes it by
`&mut`. So it is a datatype here, and `validate` cannot change the package it
reads. `validate` builds its error list step by step with conditional pushes,
so it is a method with a local sequence. It is proved against the
specification functions `Violations` and `ErrorText`. The specification
filters the five rules, kept in check order, down to those the package breaks.

## Model

| member | source | states |
|---|---|---|
| `Strings.Split` | crate-ai-engine/src/lib.rs:119 | `split('.')` yields one piece more than there are separators, and no piece contains the separator |
| `Strings.JoinSplit` | crate-ai-engine/src/lib.rs:119 | joining the pieces of a split with the separator gives back the original string |
| `Strings.SplitWithoutSeparator` | crate-ai-engine/src/lib.rs:119 | a string without the separator splits into itself alone |
| `Strings.SplitAfterPrefix` | crate-ai-engine/src/lib.rs:119 | a separator-free prefix followed by a separator becomes the first piece, and the rest splits on its own |
| `Strings.Join` | crate-ai-engine/src/lib.rs:60 | the first of the joined parts is a prefix of the result |
| `Strings.ToUpper` | crate-ai-engine/src/lib.rs:113 | ASCII upper-casing: one character for one, no lowercase ASCII letter left, only letters a-z changed, each moved 32 code points down (see `ToUpper` under Left out) |
| `Strings.ToUpperIdempotent` | crate-ai-engine/src/lib.rs:113 | upper-casing twice is the same as upper-casing once |
| `Semver.ParseU32` | crate-ai-engine/src/lib.rs:123 | an accepted piece is non-empty, ends in an ASCII digit and otherwise holds only ASCII digits, with at most one `+` in front (so a lone `+` is refused and the piece holds no `.` or `:`), and its result is at most 4294967295; a plain numeral is accepted exactly when its decimal value is at most 4294967295, and the result is that decimal value |
| `Semver.IsValidSemver` | crate-ai-engine/src/lib.rs:118-124 | a version that passes has exactly two dots; with `SemverFromNumerals` and `SemverIsThreeNumerals`, a version passes exactly when it splits on `.` into three pieces, each accepted by `ParseU32` |
| `Semver.Decimal` | crate-ai-engine/src/lib.rs:123 | the canonical rendering of a number is digits only, non-empty, with no leading zero |
| `Semver.ParseDecimal` | crate-ai-engine/src/lib.rs:123 | every `u32` value is read back from its decimal rendering |
| `Semver.UpToNineDigitsFit` | crate-ai-engine/src/lib.rs:123 | every numeral of one to nine digits is accepted, with its decimal value |
| `Semver.ElevenSignificantDigitsOverflow` | crate-ai-engine/src/lib.rs:123 | a numeral of eleven or more digits with no leading zero is rejected as out of range |
| `Semver.RangeBoundary` | crate-ai-engine/src/lib.rs:123 | `4294967295` is accepted and `4294967296` is rejected |
| `Semver.LeadingZeroIgnored` | crate-ai-engine/src/lib.rs:123 | a leading zero never changes what is parsed |
| `Semver.LeadingPlusIgnored` | crate-ai-engine/src/lib.rs:123 | one leading `+` before digits is accepted and ignored |
| `Semver.ParseU32OfNumeral` | crate-ai-engine/src/lib.rs:123 | a numeral, bare or with one `+` in front, parses exactly when its decimal value is at most 4294967295, and then to that value |
| `Semver.SemverFromNumerals` | crate-ai-engine/src/lib.rs:118-124 | any three accepted numerals joined by dots pass the version check |
| `Semver.SemverIsThreeNumerals` | crate-ai-engine/src/lib.rs:118-124 | a version that passes has exactly two dots and is its three accepted pieces joined by dots |
| `Semver.SemverHasNoColon` | crate-ai-engine/src/lib.rs:118-124 | a version that passes holds no `:` |
| `Semver.SemverNeedsTwoDots` | crate-ai-engine/src/lib.rs:119-122 | a version with any number of dots other than two is rejected |
| `Semver.RejectsNonNumeralPiece` | crate-ai-engine/src/lib.rs:118-124 | three dot-free pieces are rejected as soon as one of them is not a `u32` |
| `Semver.AcceptsLeadingZeroAndPlus` | crate-ai-engine/src/lib.rs:118-124 | `1.0.0`, `01.0.0` and `+1.0.0` all pass, unlike strict SemVer for the last two |
| `Semver.RejectsTwoPieces` | crate-ai-engine/src/lib.rs:119-122 | `1.0` is rejected |
| `Semver.RejectsPreRelease` | crate-ai-engine/src/lib.rs:118-124 | `1.0.0-alpha` is rejected |
| `Semver.RejectsEmpty` | crate-ai-engine/src/lib.rs:118-124 | the empty version is rejected, because it splits into one empty piece |
| `Checksum.HexEncode` | crate-ai-engine/src/lib.rs:99 | hex encoding gives two lowercase hex digits per byte |
| `Checksum.DecodeEncode` | crate-ai-engine/src/lib.rs:99 | decoding the hex encoding of any bytes gives the bytes back |
| `Checksum.EncodeDecode` | crate-ai-engine/src/lib.rs:99 | any string that decodes is exactly the encoding of what it decodes to, so lowercase hex has one spelling per byte string |
| `Checksum.ComputeChecksum` | crate-ai-engine/src/lib.rs:96-100 | the checksum is 64 lowercase hex characters that decode to the content's digest |
| `Checksum.VerifyChecksum` | crate-ai-engine/src/lib.rs:104-106 | a checksum is accepted only if it is 64 lowercase hex characters |
| `Checksum.VerifyAcceptsComputed` | crate-ai-engine/src/lib.rs:104-106 | whatever `compute_checksum` produces, `verify_checksum` accepts |
| `Checksum.VerifyIffDigestMatches` | crate-ai-engine/src/lib.rs:96-106 | a checksum is accepted exactly when its hex decoding is the content's digest |
| `Checksum.ChecksumsEqualIffDigestsEqual` | crate-ai-engine/src/lib.rs:96-100 | two contents share a checksum exactly when they share a digest |
| `Manifest.New` | crate-ai-engine/src/lib.rs:23-31 | name, version and image URI are stored as given; the stored checksum is 64 lowercase hex characters that `verify_checksum` accepts for `name:version:image_uri` |
| `Manifest.ChecksumContent` | crate-ai-engine/src/lib.rs:24 | the checksum content is the name, `:`, the version, `:`, the image URI, each at its stated offset, two characters longer than the three fields together |
| `Manifest.SeparatorFreePrefix` | crate-ai-engine/src/lib.rs:24 | when two strings joined by a separator are equal and the first parts hold no separator, both parts are equal |
| `Manifest.ChecksumContentUnambiguous` | crate-ai-engine/src/lib.rs:24 | for two valid packages, equal checksum contents mean equal name, version and image URI |
| `Manifest.ChecksumIgnoresFieldBoundaries` | crate-ai-engine/src/lib.rs:24 | moving a `:` across a field boundary leaves the derived checksum unchanged |
| `Manifest.NameCharsAllowed` | crate-ai-engine/src/lib.rs:42 | the name rule: every character is an ASCII letter or digit (`Strings.IsAsciiAlphanumeric`), `-` or `_`, so it holds for the empty name; an allowed name holds no `:` |
| `Manifest.Validate` | crate-ai-engine/src/lib.rs:35-63 | valid exactly when the name is non-empty and of allowed characters, the version passes the check and the image URI is non-empty; errors are the violated rules' messages in check order joined by `"; "`; errors are empty exactly when valid; the stored checksum is passed through |
| `Manifest.MessagesInCheckOrder` | crate-ai-engine/src/lib.rs:36-56 | the specified message list is the concatenation of each rule's contribution, in the order the five checks run |
| `Manifest.ViolatedStep` | crate-ai-engine/src/lib.rs:38-56 | checking one more rule appends its message exactly when the package breaks it |
| `Manifest.ViolatedMembers` | crate-ai-engine/src/lib.rs:38-56 | a rule is reported exactly when it is among those checked and the package breaks it |
| `Manifest.ViolatedKeepsOrder` | crate-ai-engine/src/lib.rs:36-60 | the reported rules keep the order in which the rules are checked |
| `Manifest.ViolationsExactly` | crate-ai-engine/src/lib.rs:38-56 | validation reports a rule exactly when the package breaks it |
| `Manifest.ViolationsInRuleOrder` | crate-ai-engine/src/lib.rs:36-60 | messages always come in the order name-required, name-characters, version-required, semver, image-required |
| `Manifest.NoViolationsIffValid` | crate-ai-engine/src/lib.rs:38-59 | nothing is reported exactly when all four field rules hold |
| `Manifest.ErrorTextEmptyIffValid` | crate-ai-engine/src/lib.rs:58-60 | the errors text is empty exactly when the manifest is valid |
| `Manifest.EmptyVersionReportedTwice` | crate-ai-engine/src/lib.rs:46-52 | an empty version is reported both as missing and as not semver |
| `Manifest.EmptyNameReportedOnce` | crate-ai-engine/src/lib.rs:38-44 | an empty name is reported as missing but not as having invalid characters |
| `Manifest.SoleViolation` | crate-ai-engine/src/lib.rs:36-60 | a package that breaks exactly one rule gets exactly that rule's message as its errors text |
| `Manifest.ValidatePackageJson` | crate-ai-engine/src/lib.rs:83-92 | a parse failure gives an invalid result, an empty checksum and `Invalid JSON: ` followed by the parser's text; a parsed manifest gives exactly what validation gives, with the checksum from the JSON |
| `Manifest.ValidationTextNeverLooksLikeJsonError` | crate-ai-engine/src/lib.rs:83-92 | no validation errors text starts with `Invalid JSON: `, so the two kinds of failure can be told apart |
| `Manifest.FormatPackageStatus` | crate-ai-engine/src/lib.rs:110-115 | the display is the fixed prefix, the name, `@`, the version, the fixed infix and the upper-cased status, at the stated offsets |
| `Manifest.FormatIgnoresStatusCase` | crate-ai-engine/src/lib.rs:113 | upper-casing the status before the call does not change the display |
| `Manifest.TestAgentNameAllowed` | crate-ai-engine/src/lib.rs:133 | the name `test-agent` has only allowed characters |
| `Manifest.SamplePackageValid` | crate-ai-engine/src/lib.rs:131-139 | the package `test-agent`, `1.0.0`, `ghcr.io/stevedores-org/test-agent:latest` validates, whatever digest SHA-256 gives |
| `Manifest.InvalidVersionOnlyFault` | crate-ai-engine/src/lib.rs:142-151 | with the name `test-agent` and the version `invalid`, the semver message is the only error |
| `Manifest.SemverMessageMentionsSemver` | crate-ai-engine/src/lib.rs:51 | the word `semver` sits at offsets 22-28 of the semver message |
| `Manifest.InvalidVersionRejected` | crate-ai-engine/src/lib.rs:142-151 | the package with version `invalid` is rejected, and its errors text contains `semver` |

## Left out

- SHA-256 (FIPS 180-4) and the UTF-8 encoding of the content are not modelled. `compute_checksum` takes them as a parameter `sha256: Hasher`, any function from a string to 32 bytes, and every property holds for every such function.
- JSON deserialisation is not modelled. `ValidatePackageJson` takes the parse outcome (`Parsed(pkg)` or `Malformed(reason)`), and the parser's error text is an opaque string.
- `to_json` (pretty-printed serialisation) is library code and is not modelled.
- The `wasm_bindgen` attributes and the JavaScript glue have no behaviour to model.
- NameCharsAllowed: `char::is_alphanumeric` is modelled on ASCII only (`Strings.IsAsciiAlphanumeric`). A name with a non-ASCII letter or digit, such as `agént`, passes the character rule at crate-ai-engine/src/lib.rs:42 but fails it in the model. `Validate` inherits this.
- ToUpper: models `str::to_uppercase` on ASCII only. Non-ASCII letters are left unchanged, and the result always has the input's length, whereas Rust maps `ß` to `SS` and so can lengthen the string.
- FormatPackageStatus: inherits the ASCII-only upper-casing of `ToUpper`, so its length and suffix clauses hold for the model, not for statuses with non-ASCII letters.
- ParseU32: only whether `parse::<u32>` succeeds is modelled, not which error kind it reports. The crate only looks at `is_ok`.
- The HTTP front end (`frontend/src/server.ts`) and the landing page (`src/App.tsx`) are not part of this model. They are static markup, two fixed JSON bodies and a library router, with no logic of their own.
