/**
 * The agent package manifest of the Stevedores AI engine: construction with a
 * derived checksum, field validation with ordered error messages, validation of
 * a manifest that arrives as JSON, and the one-line status display.
 */
module Manifest {
  import opened Strings
  import opened Semver
  import opened Checksum

  /** A package manifest. The checksum is whatever was stored: nothing here recomputes it. */
  datatype AgentPackage = AgentPackage(name: string, version: string, imageUri: string, checksum: string)

  /** What validation reports: the verdict, the joined messages and the stored checksum. */
  datatype ValidationResult = ValidationResult(valid: bool, errors: string, checksum: string)

  /** The outcome of deserialising a manifest from JSON; the parser's error text is opaque. */
  datatype JsonParse = Parsed(pkg: AgentPackage) | Malformed(reason: string)

  // ------------------------------------------------------------- the rules

  const NameRequiredMessage: string := "Package name is required"
  const NameCharactersMessage: string := "Package name contains invalid characters"
  const VersionRequiredMessage: string := "Version is required"
  const VersionSemverMessage: string := "Version must be valid semver (e.g., 1.0.0)"
  const ImageRequiredMessage: string := "Image URI is required"

  const ErrorSeparator: string := "; "
  const JsonErrorPrefix: string := "Invalid JSON: "

  /** The five field rules, in the order validation checks them. */
  datatype Rule = NameRequired | NameCharacters | VersionRequired | VersionSemver | ImageRequired

  const RuleOrder: seq<Rule> := [NameRequired, NameCharacters, VersionRequired, VersionSemver, ImageRequired]

  function Rank(rule: Rule): nat
  {
    match rule
    case NameRequired => 0
    case NameCharacters => 1
    case VersionRequired => 2
    case VersionSemver => 3
    case ImageRequired => 4
  }

  function Message(rule: Rule): string
  {
    match rule
    case NameRequired => NameRequiredMessage
    case NameCharacters => NameCharactersMessage
    case VersionRequired => VersionRequiredMessage
    case VersionSemver => VersionSemverMessage
    case ImageRequired => ImageRequiredMessage
  }

  predicate IsNameChar(c: char)
  {
    IsAsciiAlphanumeric(c) || c == '-' || c == '_'
  }

  /** Every character of the name is allowed; true of the empty name. An allowed
      name holds no `:`, the field separator of the checksum content. */
  predicate NameCharsAllowed(name: string)
    ensures NameCharsAllowed(name) ==> ':' !in name
  {
    forall i :: 0 <= i < |name| ==> IsNameChar(name[i])
  }

  /** Whether `pkg` triggers the message of `rule`. */
  predicate Violates(pkg: AgentPackage, rule: Rule)
  {
    match rule
    case NameRequired => pkg.name == ""
    case NameCharacters => !NameCharsAllowed(pkg.name)
    case VersionRequired => pkg.version == ""
    case VersionSemver => !IsValidSemver(pkg.version)
    case ImageRequired => pkg.imageUri == ""
  }

  /** The rules among `rules` that `pkg` violates, in the order given. */
  function Violated(pkg: AgentPackage, rules: seq<Rule>): seq<Rule>
  {
    if rules == [] then []
    else
      var last := rules[|rules| - 1];
      Violated(pkg, rules[..|rules| - 1]) + (if Violates(pkg, last) then [last] else [])
  }

  function Violations(pkg: AgentPackage): seq<Rule>
  {
    Violated(pkg, RuleOrder)
  }

  function Messages(rules: seq<Rule>): seq<string>
  {
    seq(|rules|, i requires 0 <= i < |rules| => Message(rules[i]))
  }

  /** The message `rule` contributes for `pkg`: its own message, or nothing. */
  function Reported(pkg: AgentPackage, rule: Rule): seq<string>
  {
    if Violates(pkg, rule) then [Message(rule)] else []
  }

  /** The `errors` text validation reports for `pkg`. */
  function ErrorText(pkg: AgentPackage): string
  {
    Join(Messages(Violations(pkg)), ErrorSeparator)
  }

  /** The manifest rules as a whole: a non-empty name of allowed characters,
      a version that passes the check, and a non-empty image URI. */
  predicate ManifestValid(pkg: AgentPackage)
  {
    pkg.name != "" && NameCharsAllowed(pkg.name) && IsValidSemver(pkg.version) && pkg.imageUri != ""
  }

  // ---------------------------------------------------------- operations

  /** The text whose digest becomes the checksum of a new package. */
  function ChecksumContent(name: string, version: string, imageUri: string): (s: string)
    ensures |s| == |name| + |version| + |imageUri| + 2
    ensures name <= s && s[|name|] == ':'
    ensures s[|name| + 1..|name| + 1 + |version|] == version && s[|name| + 1 + |version|] == ':'
    ensures s[|name| + 2 + |version|..] == imageUri
  {
    name + ":" + version + ":" + imageUri
  }

  /** `AgentPackage::new`: the three fields as given, and the checksum of `name:version:image_uri`. */
  function New(sha256: Hasher, name: string, version: string, imageUri: string): (pkg: AgentPackage)
    ensures pkg.name == name && pkg.version == version && pkg.imageUri == imageUri
    ensures VerifyChecksum(sha256, ChecksumContent(name, version, imageUri), pkg.checksum)
    ensures |pkg.checksum| == 64 && IsLowerHex(pkg.checksum)
  {
    AgentPackage(name, version, imageUri, ComputeChecksum(sha256, ChecksumContent(name, version, imageUri)))
  }

  /** `AgentPackage::validate`: collects the message of every violated rule, in rule
      order, and joins them; the package is valid exactly when none was collected. */
  method Validate(pkg: AgentPackage) returns (result: ValidationResult)
    ensures result.valid <==> ManifestValid(pkg)
    ensures result.errors == ErrorText(pkg)
    ensures result.errors == "" <==> result.valid
    ensures result.checksum == pkg.checksum
  {
    var errors: seq<string> := [];

    if pkg.name == "" {
      errors := errors + [NameRequiredMessage];
    }
    assert errors == Reported(pkg, NameRequired);

    if !NameCharsAllowed(pkg.name) {
      errors := errors + [NameCharactersMessage];
    }
    assert errors == Reported(pkg, NameRequired) + Reported(pkg, NameCharacters);

    if pkg.version == "" {
      errors := errors + [VersionRequiredMessage];
    }
    assert errors == Reported(pkg, NameRequired) + Reported(pkg, NameCharacters) + Reported(pkg, VersionRequired);

    if !IsValidSemver(pkg.version) {
      errors := errors + [VersionSemverMessage];
    }
    assert errors == Reported(pkg, NameRequired) + Reported(pkg, NameCharacters) + Reported(pkg, VersionRequired) +
      Reported(pkg, VersionSemver);

    if pkg.imageUri == "" {
      errors := errors + [ImageRequiredMessage];
    }
    assert errors == Reported(pkg, NameRequired) + Reported(pkg, NameCharacters) + Reported(pkg, VersionRequired) +
      Reported(pkg, VersionSemver) + Reported(pkg, ImageRequired);

    MessagesInCheckOrder(pkg);
    NoViolationsIffValid(pkg);
    ErrorTextEmptyIffValid(pkg);
    result := ValidationResult(errors == [], Join(errors, ErrorSeparator), pkg.checksum);
  }

  /** `validate_package_json` after parsing: a parse failure becomes a fixed
      invalid result with no checksum; a parsed manifest is validated as is. */
  method ValidatePackageJson(parse: JsonParse) returns (result: ValidationResult)
    ensures parse.Malformed? ==>
      !result.valid && result.checksum == "" && result.errors == JsonErrorPrefix + parse.reason
    ensures parse.Parsed? ==>
      (result.valid <==> ManifestValid(parse.pkg)) &&
      result.errors == ErrorText(parse.pkg) &&
      result.checksum == parse.pkg.checksum
  {
    match parse
    case Parsed(pkg) =>
      result := Validate(pkg);
    case Malformed(reason) =>
      result := ValidationResult(false, JsonErrorPrefix + reason, "");
  }

  const StatusPrefix: string := "\U{2693} Stevedore Package '"
  const StatusInfix: string := "' - Status: "

  /** `format_package_status`: the fixed frame around `name@version` and the upper-cased status. */
  function FormatPackageStatus(name: string, version: string, status: string): (s: string)
    ensures |s| == |StatusPrefix| + |name| + 1 + |version| + |StatusInfix| + |status|
    ensures s[..|StatusPrefix|] == StatusPrefix
    ensures s[|StatusPrefix|..|StatusPrefix| + |name|] == name
    ensures s[|StatusPrefix| + |name|] == '@'
    ensures s[|StatusPrefix| + |name| + 1..|StatusPrefix| + |name| + 1 + |version|] == version
    ensures s[|StatusPrefix| + |name| + 1 + |version|..|s| - |status|] == StatusInfix
    ensures s[|s| - |status|..] == ToUpper(status)
  {
    StatusPrefix + name + "@" + version + StatusInfix + ToUpper(status)
  }

  // -------------------------------------------------------------- lemmas

  /** Checking one more rule appends its message exactly when it is violated. */
  lemma ViolatedStep(pkg: AgentPackage, k: nat, rule: Rule)
    requires 0 < k <= |RuleOrder| && RuleOrder[k - 1] == rule
    ensures Messages(Violated(pkg, RuleOrder[..k])) == Messages(Violated(pkg, RuleOrder[..k - 1])) + Reported(pkg, rule)
  {
    var rules := RuleOrder[..k];
    assert rules[..|rules| - 1] == RuleOrder[..k - 1];
    var before := Violated(pkg, RuleOrder[..k - 1]);
    var added := if Violates(pkg, rule) then [rule] else [];
    assert Violated(pkg, rules) == before + added;
    assert Messages(before + added) == Messages(before) + Messages(added);
  }

  /** The reported messages are those of the five rules, taken in the order they are checked. */
  lemma MessagesInCheckOrder(pkg: AgentPackage)
    ensures Messages(Violations(pkg)) ==
      Reported(pkg, NameRequired) + Reported(pkg, NameCharacters) + Reported(pkg, VersionRequired) +
      Reported(pkg, VersionSemver) + Reported(pkg, ImageRequired)
  {
    assert RuleOrder[..0] == [];
    ViolatedStep(pkg, 1, NameRequired);
    ViolatedStep(pkg, 2, NameCharacters);
    ViolatedStep(pkg, 3, VersionRequired);
    ViolatedStep(pkg, 4, VersionSemver);
    ViolatedStep(pkg, 5, ImageRequired);
    assert RuleOrder[..5] == RuleOrder;
  }

  /** A rule is reported exactly when it is among those checked and the package violates it. */
  lemma {:induction false} ViolatedMembers(pkg: AgentPackage, rules: seq<Rule>, rule: Rule)
    ensures rule in Violated(pkg, rules) <==> rule in rules && Violates(pkg, rule)
    decreases |rules|
  {
    if rules != [] {
      var init := rules[..|rules| - 1];
      ViolatedMembers(pkg, init, rule);
      assert rules == init + [rules[|rules| - 1]];
    }
  }

  /** Filtering keeps the order of the rules checked. */
  lemma {:induction false} ViolatedKeepsOrder(pkg: AgentPackage, rules: seq<Rule>)
    requires forall i, j :: 0 <= i < j < |rules| ==> Rank(rules[i]) < Rank(rules[j])
    ensures var v := Violated(pkg, rules);
      forall i, j :: 0 <= i < j < |v| ==> Rank(v[i]) < Rank(v[j])
    decreases |rules|
  {
    if rules != [] {
      var init := rules[..|rules| - 1];
      var last := rules[|rules| - 1];
      ViolatedKeepsOrder(pkg, init);
      var before := Violated(pkg, init);
      forall i | 0 <= i < |before| ensures Rank(before[i]) < Rank(last) {
        ViolatedMembers(pkg, init, before[i]);
        var k :| 0 <= k < |init| && init[k] == before[i];
      }
    }
  }

  /** Validation reports a rule exactly when the package violates it. */
  lemma ViolationsExactly(pkg: AgentPackage, rule: Rule)
    ensures rule in Violations(pkg) <==> Violates(pkg, rule)
  {
    ViolatedMembers(pkg, RuleOrder, rule);
    assert rule == RuleOrder[Rank(rule)];
  }

  /** Messages always come in the fixed order name-required, name-characters,
      version-required, semver, image-required. */
  lemma ViolationsInRuleOrder(pkg: AgentPackage)
    ensures var v := Violations(pkg);
      forall i, j :: 0 <= i < j < |v| ==> Rank(v[i]) < Rank(v[j])
  {
    assert forall i :: 0 <= i < |RuleOrder| ==> Rank(RuleOrder[i]) == i;
    ViolatedKeepsOrder(pkg, RuleOrder);
    var v := Violations(pkg);
    assert v == Violated(pkg, RuleOrder);
    assert forall i, j :: 0 <= i < j < |v| ==> Rank(v[i]) < Rank(v[j]);
  }

  /** Nothing is reported exactly when the manifest satisfies every rule. */
  lemma NoViolationsIffValid(pkg: AgentPackage)
    ensures Violations(pkg) == [] <==> ManifestValid(pkg)
  {
    ViolationsExactly(pkg, NameRequired);
    ViolationsExactly(pkg, NameCharacters);
    ViolationsExactly(pkg, VersionRequired);
    ViolationsExactly(pkg, VersionSemver);
    ViolationsExactly(pkg, ImageRequired);
    if Violations(pkg) != [] {
      ViolationsExactly(pkg, Violations(pkg)[0]);
    }
  }

  /** The error text is empty exactly when the manifest is valid. */
  lemma ErrorTextEmptyIffValid(pkg: AgentPackage)
    ensures ErrorText(pkg) == "" <==> ManifestValid(pkg)
  {
    NoViolationsIffValid(pkg);
    var msgs := Messages(Violations(pkg));
    if msgs != [] {
      assert msgs[0] <= ErrorText(pkg);
      assert |msgs[0]| > 0;
    }
  }

  /** An empty version is reported twice: as missing, and as not semver,
      since splitting `""` on `.` yields one piece. */
  lemma EmptyVersionReportedTwice(pkg: AgentPackage)
    requires pkg.version == ""
    ensures VersionRequired in Violations(pkg) && VersionSemver in Violations(pkg)
  {
    RejectsEmpty();
    ViolationsExactly(pkg, VersionRequired);
    ViolationsExactly(pkg, VersionSemver);
  }

  /** An empty name is reported once: every character of no characters is allowed. */
  lemma EmptyNameReportedOnce(pkg: AgentPackage)
    requires pkg.name == ""
    ensures NameRequired in Violations(pkg) && NameCharacters !in Violations(pkg)
  {
    ViolationsExactly(pkg, NameRequired);
    ViolationsExactly(pkg, NameCharacters);
  }

  /** A result for malformed JSON can never be mistaken for a validation result:
      no validation error text starts with the JSON prefix. */
  lemma ValidationTextNeverLooksLikeJsonError(pkg: AgentPackage)
    ensures !(JsonErrorPrefix <= ErrorText(pkg))
  {
    var msgs := Messages(Violations(pkg));
    var text := ErrorText(pkg);
    if msgs != [] {
      assert msgs[0] <= text;
      var rule := Violations(pkg)[0];
      assert msgs[0] == Message(rule);
      assert text[1] == Message(rule)[1];
      assert JsonErrorPrefix[1] == 'n';
    }
  }

  /** The checksum covers the joined text only: moving a `:` across a field
      boundary leaves it unchanged. */
  lemma ChecksumIgnoresFieldBoundaries(sha256: Hasher, a: string, b: string, c: string, d: string)
    ensures New(sha256, a + ":" + b, c, d).checksum == New(sha256, a, b + ":" + c, d).checksum
  {
    assert ChecksumContent(a + ":" + b, c, d) == ChecksumContent(a, b + ":" + c, d);
  }

  /** Pieces before the first separator are the same when the joined strings are. */
  lemma SeparatorFreePrefix(a: string, b: string, a': string, b': string, sep: char)
    requires sep !in a && sep !in a'
    requires a + [sep] + b == a' + [sep] + b'
    ensures a == a' && b == b'
  {
    SplitAfterPrefix(a, sep, b);
    SplitAfterPrefix(a', sep, b');
    var s := a + [sep] + b;
    assert a == Split(s, sep)[0] == a';
    assert s[|a| + 1..] == b;
    assert s[|a'| + 1..] == b';
  }

  /** For valid packages the checksum content has one reading: neither the name
      nor the version can hold a `:`, so the content determines all three fields. */
  lemma ChecksumContentUnambiguous(p: AgentPackage, q: AgentPackage)
    requires ManifestValid(p) && ManifestValid(q)
    requires ChecksumContent(p.name, p.version, p.imageUri) == ChecksumContent(q.name, q.version, q.imageUri)
    ensures p.name == q.name && p.version == q.version && p.imageUri == q.imageUri
  {
    SemverHasNoColon(p.version);
    SemverHasNoColon(q.version);
    assert ChecksumContent(p.name, p.version, p.imageUri) == p.name + [':'] + (p.version + [':'] + p.imageUri);
    assert ChecksumContent(q.name, q.version, q.imageUri) == q.name + [':'] + (q.version + [':'] + q.imageUri);
    SeparatorFreePrefix(p.name, p.version + [':'] + p.imageUri, q.name, q.version + [':'] + q.imageUri, ':');
    SeparatorFreePrefix(p.version, p.imageUri, q.version, q.imageUri, ':');
  }

  /** Upper-casing the status first does not change the display. */
  lemma FormatIgnoresStatusCase(name: string, version: string, status: string)
    ensures FormatPackageStatus(name, version, ToUpper(status)) == FormatPackageStatus(name, version, status)
  {
  }

  // ------------------------------------------------- the crate's own tests

  /** The name used by the crate's tests is made of allowed characters. */
  lemma TestAgentNameAllowed()
    ensures NameCharsAllowed("test-agent")
  {
  }

  /** `test_package_validation`: a well-formed package validates, whatever its digest. */
  lemma SamplePackageValid(sha256: Hasher)
    ensures ManifestValid(New(sha256, "test-agent", "1.0.0", "ghcr.io/stevedores-org/test-agent:latest"))
  {
    AcceptsLeadingZeroAndPlus();
    TestAgentNameAllowed();
  }

  /** A package that breaks exactly one rule gets exactly that rule's message. */
  lemma SoleViolation(pkg: AgentPackage, rule: Rule)
    requires Violates(pkg, rule)
    requires forall other: Rule :: other != rule ==> !Violates(pkg, other)
    ensures Violations(pkg) == [rule]
    ensures ErrorText(pkg) == Message(rule)
  {
    var v := Violations(pkg);
    ViolationsInRuleOrder(pkg);
    forall r | r in v ensures r == rule {
      ViolationsExactly(pkg, r);
    }
    ViolationsExactly(pkg, rule);
    forall i | 0 <= i < |v| ensures v[i] == rule {
      assert v[i] in v;
    }
    assert |v| > 0 && v[0] == v[|v| - 1] == rule;
    assert Rank(v[0]) == Rank(v[|v| - 1]);
    assert |v| == 1;
    assert Messages(v) == [Message(rule)];
  }

  /** A package whose only fault is the version `invalid` gets only the semver message. */
  lemma InvalidVersionOnlyFault(pkg: AgentPackage)
    requires pkg.name == "test-agent" && pkg.version == "invalid" && pkg.imageUri != ""
    ensures !ManifestValid(pkg) && Violations(pkg) == [VersionSemver] && ErrorText(pkg) == VersionSemverMessage
  {
    SplitWithoutSeparator("invalid", '.');
    assert Violates(pkg, VersionSemver);
    TestAgentNameAllowed();
    assert !Violates(pkg, NameRequired) && !Violates(pkg, NameCharacters);
    assert !Violates(pkg, VersionRequired) && !Violates(pkg, ImageRequired);
    SoleViolation(pkg, VersionSemver);
  }

  /** The semver message names what it asks for. */
  lemma SemverMessageMentionsSemver()
    ensures VersionSemverMessage[22..28] == "semver"
  {
  }

  /** `test_invalid_version`: the version `invalid` is rejected, and the error
      text mentions semver. */
  lemma InvalidVersionRejected(sha256: Hasher)
    ensures var pkg := New(sha256, "test-agent", "invalid", "ghcr.io/test:latest");
      !ManifestValid(pkg) &&
      ErrorText(pkg) == VersionSemverMessage &&
      ErrorText(pkg)[22..28] == "semver"
  {
    var pkg := New(sha256, "test-agent", "invalid", "ghcr.io/test:latest");
    assert pkg.name == "test-agent" && pkg.version == "invalid" && pkg.imageUri == "ghcr.io/test:latest";
    InvalidVersionOnlyFault(pkg);
    SemverMessageMentionsSemver();
  }
}
