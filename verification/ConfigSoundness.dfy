/**
 * What the generator's acceptance of a registry guarantees of the runtime that loads the compiled
 * settings: its own checks, its defaults, and the safety bounds.
 */
module ConfigSoundness {
  import opened Bytes
  import opened ConfigRuntime
  import opened ConfigRegistry
  import RustLiteral

  /* ---------- compiled strings are the registry's ---------- */

  lemma CompiledIsSame(s: string)
    requires RustLiteral.Compiled(s).Some?
    ensures RustLiteral.Compiled(s) == Some(s) && RustLiteral.AllShared(s)
  {
    RustLiteral.CompiledIffShared(s);
  }

  lemma {:induction false} CompiledListIsSame(items: seq<Value>)
    requires CompiledList(items).Some?
    ensures var texts := CompiledList(items).value;
            |texts| == |items| && forall i :: 0 <= i < |items| ==> items[i] == Str(texts[i])
    decreases |items|
  {
    hide RustLiteral.Compiled;
    if items != [] {
      CompiledListIsSame(items[..|items| - 1]);
      CompiledIsSame(items[|items| - 1].s);
    }
  }

  lemma {:induction false} AsciiLength(s: string)
    requires RustLiteral.AllShared(s)
    ensures Utf8Length(s) == |s|
    decreases |s|
  {
    if s != "" {
      assert s[0] in s && forall c :: c in s[1..] ==> c in s;
      AsciiLength(s[1..]);
    }
  }

  /* ---------- one setting ---------- */

  // The setting's default is a negative duration or size.
  predicate NegativeAmount(v: Value) {
    var policy := SubFields(v, "value_policy");
    (KindOfSetting(v).DurationSeconds? || KindOfSetting(v).ByteCount?)
    && Words(policy, "mode") != Some("required") && Number(policy, "default").GetOr(0) < 0
  }

  // The constraints are the operational bounds, and the names and the mode the registry's.
  predicate Mirrors(v: Value, spec: Spec) {
    var (d, c) := (Bound(v, "operational"), spec.constraints);
    && spec.id == IdOf(v) && spec.owner == OwnerOf(v) && spec.kind == KindOfSetting(v)
    && c.minimum == Number(d, "minimum") && c.maximum == Number(d, "maximum")
    && c.minimumLength == Number(d, "minimum_length") && c.maximumLength == Number(d, "maximum_length")
    && c.minimumItems == Number(d, "minimum_items") && c.maximumItems == Number(d, "maximum_items")
    && c.pattern == Words(d, "pattern") && c.referenceType == Words(SubFields(v, "value"), "reference_type")
    && |c.allowed| == |Texts(d, "allowed")|
    && (forall i :: 0 <= i < |c.allowed| ==> Texts(d, "allowed")[i] == Str(c.allowed[i]))
    && (spec.mode == Required <==> Words(SubFields(v, "value_policy"), "mode") == Some("required"))
  }

  lemma CompiledOptionIsSame(s: Option<string>)
    requires CompiledOption(s).Some?
    ensures CompiledOption(s) == Some(s)
  {
    if s.Some? { CompiledIsSame(s.value); }
  }

  lemma CompiledMirrors(v: Value)
    requires CompileSetting(v).Some?
    ensures Mirrors(v, CompileSetting(v).value)
    ensures CompiledDefault(KindOfSetting(v), SubFields(v, "value_policy")) == Some(CompileSetting(v).value.default)
  {
    var d := Bound(v, "operational");
    CompiledIsSame(IdOf(v));
    CompiledIsSame(OwnerOf(v));
    CompiledOptionIsSame(Words(d, "pattern"));
    CompiledOptionIsSame(Words(SubFields(v, "value"), "reference_type"));
    CompiledListIsSame(Texts(d, "allowed"));
    hide RustLiteral.Compiled, CompiledOption, CompiledList, CompiledDefault, KindOfSetting, Bound, SubFields;
  }

  // What the acceptance of a setting says about the parts the compiler uses.
  lemma AcceptedParts(v: Value)
    requires ValidSetting(v)
    ensures OwnerOf(v) == "backend" && IsSettingId(IdOf(v))
    ensures ValidOperational(KindOfSetting(v), Bound(v, "operational"))
    ensures ValidOperational(KindOfSetting(v), Bound(v, "safety"))
    ensures ValidSafetyCeiling(Bound(v, "operational"), Bound(v, "safety"))
    ensures ValidPolicy(KindOfSetting(v), Dict(SubFields(v, "value_policy")), Bound(v, "operational"))
    ensures KindOfSetting(v).SecretReference? ==> Words(SubFields(v, "value"), "reference_type") == Some("mounted-file")
  {
    hide ValidOperational, ValidSafetyCeiling, ValidLogPolicy, ValidPrecedence, ValidDeprecation, IsSettingId,
         ValidDefault;
  }

  // The compiled default is the registry's.
  lemma DefaultIsSame(kind: Kind, policy: Fields, d: Fields)
    requires ValidPolicy(kind, Dict(policy), d) && CompiledDefault(kind, policy).Some?
    ensures var default := CompiledDefault(kind, policy).value;
            if Words(policy, "mode") == Some("required") then default == None
            else "default" in policy && ValidDefault(kind, policy["default"], d)
                 && (IsNumeric(kind) || IsTextual(kind))
                 && default == Some(if IsNumeric(kind)
                               then NumberDefault(policy["default"].n) else TextDefault(policy["default"].s))
  {
    if Words(policy, "mode") != Some("required") && IsTextual(kind) { CompiledIsSame(policy["default"].s); }
    hide RustLiteral.Compiled, ValidText;
  }

  // A compiled setting passes the runtime's checks of it.
  lemma CompiledSpecIsValid(v: Value)
    requires ValidSetting(v) && CompileSetting(v).Some?
    ensures ValidSpec("backend", CompileSetting(v).value)
  {
    AcceptedParts(v);
    CompiledMirrors(v);
    DefaultIsSame(KindOfSetting(v), SubFields(v, "value_policy"), Bound(v, "operational"));
    hide ValidSetting, CompileSetting, ValidOperational, ValidSafetyCeiling, ValidPolicy, CompiledDefault,
         ValidDefault, KindOfSetting, Bound, SubFields;
  }

  lemma AllowedTexts(items: seq<Value>, texts: seq<string>, s: string)
    requires |texts| == |items| && forall i :: 0 <= i < |texts| ==> items[i] == Str(texts[i])
    ensures s in texts <==> Str(s) in items
  {
    if s in texts {
      var i :| 0 <= i < |texts| && texts[i] == s;
      assert items[i] == Str(s);
    }
    if Str(s) in items {
      var i :| 0 <= i < |items| && items[i] == Str(s);
      assert texts[i] == s;
    }
  }

  // The generator's check of a text and the runtime's are the same.
  lemma TextChecksAgree(v: Value, spec: Spec, s: string)
    requires Mirrors(v, spec) && IsTextual(spec.kind) && ValidOperational(spec.kind, Bound(v, "operational"))
    ensures ValidText(s, Bound(v, "operational")) <==> ValidateText(spec, s).None?
  {
    var d := Bound(v, "operational");
    AllowedTexts(Texts(d, "allowed"), spec.constraints.allowed, s);
    PatternChecksAgree(d, s);
    hide Utf8Length, MatchesPattern, Bound, KindOfSetting, SubFields;
  }

  lemma PatternChecksAgree(d: Fields, s: string)
    requires ValidTextBounds(d)
    ensures Words(d, "pattern").Some? ==>
              (MatchesPattern(Words(d, "pattern").value, s)
               <==> ((Words(d, "pattern") == Some(NAME_PATTERN) ==> IsIdentifier(s))
                     && (Words(d, "pattern") == Some(CONFIG_PATTERN) ==> ValidMountedPath(s, "/run/config/"))))
  {
    assert NAME_PATTERN[1] != CONFIG_PATTERN[1];
    hide IsIdentifier, ValidMountedPath;
  }

  // What acceptance and compilation together say of a setting and its specification.
  predicate Faithful(v: Value, spec: Spec) {
    && Mirrors(v, spec) && CompiledDefault(spec.kind, SubFields(v, "value_policy")) == Some(spec.default)
    && ValidOperational(spec.kind, Bound(v, "operational")) && ValidOperational(spec.kind, Bound(v, "safety"))
    && ValidSafetyCeiling(Bound(v, "operational"), Bound(v, "safety"))
    && ValidPolicy(spec.kind, Dict(SubFields(v, "value_policy")), Bound(v, "operational"))
    && (spec.kind.SecretReference? ==> spec.constraints.referenceType == Some("mounted-file"))
  }

  lemma CompiledIsFaithful(v: Value)
    requires ValidSetting(v) && CompileSetting(v).Some?
    ensures Faithful(v, CompileSetting(v).value)
  {
    AcceptedParts(v);
    CompiledMirrors(v);
    hide ValidSetting, CompileSetting, CompiledDefault, ValidPolicy, ValidOperational, ValidSafetyCeiling,
         KindOfSetting, Bound, SubFields;
  }

  // The default of a registry's policy.
  function RegistryDefault(kind: Kind, policy: Fields): Default {
    if IsNumeric(kind) then NumberDefault(Number(policy, "default").GetOr(0))
    else TextDefault(Words(policy, "default").GetOr(""))
  }

  lemma NumberDefaultFits(v: Value, spec: Spec, n: Value)
    requires Mirrors(v, spec) && IsNumeric(spec.kind) && ValidOperational(spec.kind, Bound(v, "operational"))
    requires ValidDefault(spec.kind, n, Bound(v, "operational"))
    ensures n.Int? && n.n <= I64_MAX && ValidateNumber(spec, n.n).None?
  {
    hide Bound, KindOfSetting, SubFields;
  }

  lemma NumberConverts(spec: Spec, n: int)
    requires IsNumeric(spec.kind) && spec.default == Some(NumberDefault(n))
    requires n <= I64_MAX && ValidateNumber(spec, n).None?
    ensures DefaultValue(spec).Ok? <==> (spec.kind == Integer || n >= 0)
    ensures DefaultValue(spec).Ok? ==> DefaultValue(spec).value == ConvertDefault(spec.kind, NumberDefault(n))
    ensures DefaultValue(spec).Err? ==> DefaultValue(spec) == Err(InvalidProjection)
  {
    hide ValidateNumber;
  }

  lemma TextConverts(spec: Spec, s: string)
    requires IsTextual(spec.kind) && spec.default == Some(TextDefault(s)) && ValidateText(spec, s).None?
    ensures DefaultValue(spec) == Ok(ConvertDefault(spec.kind, TextDefault(s)))
  {
    hide ValidateText;
  }

  // A default converts exactly when it is no negative duration or size, and is then the registry's.
  lemma FaithfulDefault(v: Value, spec: Spec)
    requires Faithful(v, spec)
    ensures DefaultValue(spec).Ok? <==> !NegativeAmount(v)
    ensures DefaultValue(spec).Err? ==> DefaultValue(spec) == Err(InvalidProjection)
    ensures DefaultValue(spec).Ok? ==>
              DefaultValue(spec).value
                == if spec.mode == Required then None
                   else ConvertDefault(spec.kind, RegistryDefault(spec.kind, SubFields(v, "value_policy")))
  {
    var (policy, d) := (SubFields(v, "value_policy"), Bound(v, "operational"));
    DefaultIsSame(spec.kind, policy, d);
    MirrorsNames(v, spec);
    hide CompiledDefault, ValidPolicy, ValidSafetyCeiling, KindOfSetting, Bound, SubFields, Mirrors,
         ValidOperational, ValidDefault, ConvertDefault, Validate;
    if spec.mode == HasDefault {
      hide DefaultValue;
      if IsTextual(spec.kind) {
        TextDefaultFits(v, spec, policy["default"]);
        TextConverts(spec, policy["default"].s);
      } else {
        NumberDefaultFits(v, spec, policy["default"]);
        NumberConverts(spec, policy["default"].n);
      }
    }
  }

  lemma TextDefaultFits(v: Value, spec: Spec, s: Value)
    requires Mirrors(v, spec) && IsTextual(spec.kind) && ValidOperational(spec.kind, Bound(v, "operational"))
    requires ValidDefault(spec.kind, s, Bound(v, "operational"))
    ensures s.Str? && ValidateText(spec, s.s).None?
  {
    TextChecksAgree(v, spec, s.s);
    hide ValidText, ValidateText, Mirrors, ValidOperational, Bound;
  }

  lemma MirrorsNames(v: Value, spec: Spec)
    requires Mirrors(v, spec)
    ensures spec.id == IdOf(v) && spec.kind == KindOfSetting(v)
    ensures spec.mode == Required <==> Words(SubFields(v, "value_policy"), "mode") == Some("required")
  {
    hide KindOfSetting, Bound, SubFields, IdOf;
  }

  // A compiled setting's default converts exactly when it is no negative duration or size, and is
  // then the registry's own.
  lemma DefaultConverts(v: Value)
    requires ValidSetting(v) && CompileSetting(v).Some?
    ensures var (spec, policy) := (CompileSetting(v).value, SubFields(v, "value_policy"));
            (DefaultValue(spec).Ok? <==> !NegativeAmount(v))
            && (DefaultValue(spec).Err? ==> DefaultValue(spec) == Err(InvalidProjection))
            && (DefaultValue(spec).Ok? ==>
                  DefaultValue(spec).value
                    == if spec.mode == Required then None
                       else ConvertDefault(spec.kind, RegistryDefault(spec.kind, policy)))
  {
    CompiledIsFaithful(v);
    hide *;
    FaithfulDefault(v, CompileSetting(v).value);
  }

  lemma ConstraintsAreThere(v: Value, spec: Spec)
    requires Mirrors(v, spec) && ValidOperational(spec.kind, Bound(v, "operational"))
    ensures IsNumeric(spec.kind) ==> spec.constraints.minimum.Some? && spec.constraints.maximum.Some?
    ensures spec.kind == StringList ==> spec.constraints.minimumItems.Some? && spec.constraints.maximumItems.Some?
    ensures spec.kind == SecretReference ==> spec.constraints.allowed == ["mounted-file"]
  {
    hide Bound, KindOfSetting, SubFields, ValidTextBounds;
  }

  lemma FaithfulNeverBlames(spec: Spec, value: Setting)
    requires IsNumeric(spec.kind) ==> spec.constraints.minimum.Some? && spec.constraints.maximum.Some?
    requires spec.kind == StringList ==> spec.constraints.minimumItems.Some? && spec.constraints.maximumItems.Some?
    requires spec.kind == SecretReference ==>
               spec.constraints.allowed == ["mounted-file"] && spec.constraints.referenceType == Some("mounted-file")
    ensures Validate(spec, value) != Some(InvalidProjection)
  {
    hide ValidSecretReference, Utf8Length, MatchesPattern;
  }

  // The runtime never blames the projection for a value of a compiled setting.
  lemma ProjectionIsNeverBlamed(v: Value, value: Setting)
    requires ValidSetting(v) && CompileSetting(v).Some?
    ensures Validate(CompileSetting(v).value, value) != Some(InvalidProjection)
  {
    var spec := CompileSetting(v).value;
    CompiledIsFaithful(v);
    hide ValidSetting, CompileSetting, CompiledDefault, ValidPolicy, ValidSafetyCeiling, KindOfSetting, Bound,
         SubFields, ValidOperational, Mirrors, Validate;
    ConstraintsAreThere(v, spec);
    FaithfulNeverBlames(spec, value);
  }

  /* ---------- the safety bounds ---------- */

  predicate SafeNumber(safety: Fields, n: int) {
    Number(safety, "minimum").Some? && Number(safety, "maximum").Some?
    && Number(safety, "minimum").value <= n <= Number(safety, "maximum").value
  }

  predicate SafeText(safety: Fields, s: string) {
    && (Number(safety, "minimum_length").Some? ==> Number(safety, "minimum_length").value <= Utf8Length(s))
    && (Number(safety, "maximum_length").Some? ==> Utf8Length(s) <= Number(safety, "maximum_length").value)
    && ("allowed" in safety ==> Str(s) in Texts(safety, "allowed"))
    && (Words(safety, "pattern").Some? ==> MatchesPattern(Words(safety, "pattern").value, s))
  }

  predicate SafeCount(safety: Fields, count: nat) {
    Number(safety, "minimum_items").Some? && Number(safety, "maximum_items").Some?
    && Number(safety, "minimum_items").value <= count <= Number(safety, "maximum_items").value
  }

  // Inside the registry's safety bounds.
  predicate WithinSafety(safety: Fields, value: Setting) {
    match value
    case IntegerValue(n) => SafeNumber(safety, n)
    case DurationValue(n) => SafeNumber(safety, n)
    case BytesValue(n) => SafeNumber(safety, n)
    case TextValue(s) => SafeText(safety, s)
    case PathValue(s) => SafeText(safety, s)
    case ListValue(items) => SafeCount(safety, |items|)
    case SecretValue(path) => ValidSecretReference(path)
  }

  lemma SafeTextWhenAccepted(v: Value, spec: Spec, s: string)
    requires Mirrors(v, spec) && IsTextual(spec.kind)
    requires ValidTextBounds(Bound(v, "operational")) && ValidTextBounds(Bound(v, "safety"))
    requires ValidSafetyCeiling(Bound(v, "operational"), Bound(v, "safety"))
    requires ValidateText(spec, s).None?
    ensures SafeText(Bound(v, "safety"), s)
  {
    var (d, safety) := (Bound(v, "operational"), Bound(v, "safety"));
    AllowedTexts(Texts(d, "allowed"), spec.constraints.allowed, s);
    assert "minimum_length" in CEILING_KEYS && "maximum_length" in CEILING_KEYS && "allowed" in CEILING_KEYS;
    hide Utf8Length, MatchesPattern, Bound, KindOfSetting, SubFields;
  }

  lemma SafeNumberWhenAccepted(v: Value, spec: Spec, n: int)
    requires Mirrors(v, spec) && IsNumeric(spec.kind)
    requires ValidOperational(spec.kind, Bound(v, "operational")) && ValidOperational(spec.kind, Bound(v, "safety"))
    requires ValidSafetyCeiling(Bound(v, "operational"), Bound(v, "safety"))
    requires ValidateNumber(spec, n).None?
    ensures SafeNumber(Bound(v, "safety"), n)
  {
    hide Bound, KindOfSetting, SubFields;
  }

  lemma SafeCountWhenAccepted(v: Value, spec: Spec, count: nat)
    requires Mirrors(v, spec) && spec.kind == StringList
    requires ValidOperational(spec.kind, Bound(v, "operational")) && ValidOperational(spec.kind, Bound(v, "safety"))
    requires ValidSafetyCeiling(Bound(v, "operational"), Bound(v, "safety"))
    requires ValidateItems(spec, count).None?
    ensures SafeCount(Bound(v, "safety"), count)
  {
    hide Bound, KindOfSetting, SubFields;
  }

  lemma FaithfulIsSafe(v: Value, spec: Spec, value: Setting)
    requires Faithful(v, spec) && Validate(spec, value).None?
    ensures WithinSafety(Bound(v, "safety"), value)
  {
    hide CompiledDefault, ValidPolicy, ValidSafetyCeiling, ValidTextBounds, Bound, SubFields, Mirrors,
         Utf8Length, MatchesPattern, ValidateText, ValidateNumber, ValidateItems, SafeText, SafeNumber,
         SafeCount;
    if IsTextual(spec.kind) {
      SafeTextWhenAccepted(v, spec, if value.TextValue? then value.text else value.path);
    } else {
      hide ValidOperational;
      match value
      case IntegerValue(n) => SafeNumberWhenAccepted(v, spec, n);
      case DurationValue(n) => SafeNumberWhenAccepted(v, spec, n);
      case BytesValue(n) => SafeNumberWhenAccepted(v, spec, n);
      case ListValue(items) => SafeCountWhenAccepted(v, spec, |items|);
      case _ =>
    }
  }

  // Every value the runtime accepts for a setting lies inside the registry's safety bounds.
  lemma AcceptedIsSafe(v: Value, value: Setting)
    requires ValidSetting(v) && CompileSetting(v).Some?
    requires Validate(CompileSetting(v).value, value).None?
    ensures WithinSafety(Bound(v, "safety"), value)
  {
    CompiledIsFaithful(v);
    hide *;
    FaithfulIsSafe(v, CompileSetting(v).value, value);
  }

  /* ---------- the whole registry ---------- */

  lemma {:induction false} CompiledSettingsAt(settings: seq<Value>)
    requires CompileSettings(settings).Some?
    ensures var specs := CompileSettings(settings).value;
            |specs| == |settings| && forall i :: 0 <= i < |settings| ==> CompileSetting(settings[i]) == Some(specs[i])
    decreases |settings|
  {
    hide CompileSetting;
    if settings != [] {
      var before := settings[..|settings| - 1];
      CompiledSettingsAt(before);
      assert forall i :: 0 <= i < |before| ==> before[i] == settings[i];
    }
  }

  lemma HashIsDigest(s: string)
    requires IsHash(s)
    ensures "sha256:" <= s && Utf8Length(s) == 71
  {
    forall c | c in s ensures RustLiteral.Shared(c) {
      var i :| 0 <= i < |s| && s[i] == c;
      if i >= 7 { assert s[7..][i - 7] == c && c in s[7..]; }
      else { assert s[i] == "sha256:"[i]; }
    }
    AsciiLength(s);
  }

  lemma MetadataParts(d: Fields)
    requires ValidMetadata(d)
    ensures Number(d, "catalog_version") == Some(1) && Words(d, "owner") == Some("backend")
    ensures IsHash(Words(d, "source_integrity").GetOr("")) && IsHash(Words(d, "projection_integrity").GetOr(""))
  {
    hide IsHash;
  }

  lemma MetadataCompiles(registry: Fields, fileHash: string, p: Projection)
    requires ValidMetadata(Metadata(registry)) && Compile(registry, fileHash) == Some(p)
    ensures p.catalogVersion == 1 && p.owner == "backend"
    ensures p.digests == [fileHash, Words(Metadata(registry), "source_integrity").GetOr(""),
                          Words(Metadata(registry), "projection_integrity").GetOr("")]
    ensures CompileSettings(Settings(registry)) == Some(p.settings)
  {
    var d := Metadata(registry);
    MetadataParts(d);
    hide ValidMetadata, RustLiteral.Compiled, CompileSettings, IsHash, Words, Number, Metadata;
    CompiledIsSame(Words(d, "source_integrity").GetOr(""));
    CompiledIsSame(Words(d, "projection_integrity").GetOr(""));
    CompiledIsSame(Words(d, "owner").GetOr(""));
  }

  lemma SpecIsValidAt(settings: seq<Value>, specs: seq<Spec>, i: nat)
    requires ValidSettings(settings) && CompileSettings(settings) == Some(specs) && i < |settings|
    ensures i < |specs| && ValidSpec("backend", specs[i]) && specs[i].id == IdOf(settings[i])
  {
    hide CompileSetting, CompileSettings, ValidSpec, IdOf;
    CompiledSettingsAt(settings);
    assert ValidSetting(settings[i]);
    hide ValidSettings, ValidSetting;
    CompiledSpecIsValid(settings[i]);
    SpecNamed(settings[i]);
  }

  lemma SpecsAreValid(settings: seq<Value>, specs: seq<Spec>)
    requires ValidSettings(settings) && CompileSettings(settings) == Some(specs)
    ensures |specs| == 34 && DistinctIds(specs) && forall i :: 0 <= i < |specs| ==> ValidSpec("backend", specs[i])
  {
    hide ValidSetting, CompileSettings, ValidSpec, IdOf, CompileSetting;
    CompiledSettingsAt(settings);
    forall i | 0 <= i < |specs| ensures ValidSpec("backend", specs[i]) {
      SpecIsValidAt(settings, specs, i);
    }
    forall i, j | 0 <= i < j < |specs| ensures specs[i].id != specs[j].id {
      SpecIsValidAt(settings, specs, i);
      SpecIsValidAt(settings, specs, j);
    }
  }

  lemma HashesAreDigests(digests: seq<string>)
    requires |digests| == 3 && IsHash(digests[0]) && IsHash(digests[1]) && IsHash(digests[2])
    ensures forall d :: d in digests ==> "sha256:" <= d && Utf8Length(d) == 71
  {
    hide IsHash, Utf8Length;
    forall d | d in digests ensures "sha256:" <= d && Utf8Length(d) == 71 {
      var i :| 0 <= i < 3 && digests[i] == d;
      HashIsDigest(digests[i]);
    }
  }

  lemma PartsMakeProjection(p: Projection)
    requires p.catalogVersion == 1 && p.owner == "backend" && |p.settings| == 34 && DistinctIds(p.settings)
    requires forall i :: 0 <= i < |p.settings| ==> ValidSpec("backend", p.settings[i])
    requires forall d :: d in p.digests ==> "sha256:" <= d && Utf8Length(d) == 71
    ensures ValidProjection(p)
  {
    hide ValidSpec, DistinctIds, Utf8Length;
  }

  // An accepted registry that is compiled passes the runtime's own check of its projection.
  lemma AcceptedProjectionIsValid(registry: Fields, digest: Value -> string, fileHash: string)
    requires ValidRegistry(registry, digest) && IsHash(fileHash) && Compile(registry, fileHash).Some?
    ensures ValidProjection(Compile(registry, fileHash).value)
  {
    hide ValidMetadata, ValidSettings, Compile, CompileSettings, ValidProjection, IsHash, Utf8Length,
         ValidSpec, DistinctIds, Metadata, Settings, Signed;
    var p := Compile(registry, fileHash).value;
    MetadataCompiles(registry, fileHash, p);
    MetadataParts(Metadata(registry));
    SpecsAreValid(Settings(registry), p.settings);
    HashesAreDigests(p.digests);
    PartsMakeProjection(p);
  }

  lemma SpecNamed(v: Value)
    requires CompileSetting(v).Some?
    ensures CompileSetting(v).value.id == IdOf(v)
  {
    CompiledMirrors(v);
    hide CompileSetting, Bound, SubFields, KindOfSetting, CompiledDefault, IdOf, OwnerOf;
  }

  // Some setting's default is a negative duration or size.
  predicate HasNegativeAmount(settings: seq<Value>) {
    exists i :: 0 <= i < |settings| && NegativeAmount(settings[i])
  }

  lemma DefaultsConvert(settings: seq<Value>, specs: seq<Spec>)
    requires ValidSettings(settings) && CompileSettings(settings) == Some(specs)
    ensures if HasNegativeAmount(settings) then Defaults(specs) == Err(InvalidProjection) else Defaults(specs).Ok?
  {
    hide ValidSetting, CompileSetting, CompileSettings, NegativeAmount, DefaultValue, Defaults;
    CompiledSettingsAt(settings);
    forall i | 0 <= i < |specs|
      ensures DefaultValue(specs[i]).Ok? <==> !NegativeAmount(settings[i])
      ensures DefaultValue(specs[i]).Ok? || DefaultValue(specs[i]) == Err(InvalidProjection)
    {
      assert ValidSetting(settings[i]);
      DefaultConverts(settings[i]);
    }
    DefaultsBlame(specs);
    DefaultsMean(specs, "");
  }

  lemma EntriesNeverBlame(settings: seq<Value>, specs: seq<Spec>, e: Entry, permitsSecrets: bool)
    requires ValidSettings(settings) && CompileSettings(settings) == Some(specs)
    ensures EntryError(specs, e, permitsSecrets) != Some(InvalidProjection)
  {
    hide ValidSetting, CompileSetting, CompileSettings, Validate, Find;
    CompiledSettingsAt(settings);
    var spec := Find(specs, e.id);
    if spec.Some? {
      var i :| 0 <= i < |specs| && specs[i] == spec.value;
      assert ValidSetting(settings[i]);
      ProjectionIsNeverBlamed(settings[i], e.value);
    }
  }

  // For layers of the right owner and version, a load reports an invalid projection exactly when
  // the accepted registry has a negative duration or size as a default: the one thing that the
  // generator lets through and the runtime refuses, and then it refuses every load.
  lemma LoadBlamesProjectionExactlyWhen(registry: Fields, digest: Value -> string, fileHash: string,
      file: Layer, command: Layer)
    requires ValidRegistry(registry, digest) && IsHash(fileHash) && Compile(registry, fileHash).Some?
    requires file.owner == "backend" && command.owner == "backend"
             && file.catalogVersion == 1 && command.catalogVersion == 1
    ensures Load(Compile(registry, fileHash).value, file, command) == Err(InvalidProjection)
            <==> HasNegativeAmount(Settings(registry))
  {
    hide Compile, ValidMetadata, ValidSettings, ValidProjection, CompileSettings, IsHash, HasNegativeAmount,
         Defaults, ApplyLayer, EntryError, Metadata, Settings, Signed;
    var (p, settings) := (Compile(registry, fileHash).value, Settings(registry));
    AcceptedProjectionIsValid(registry, digest, fileHash);
    MetadataCompiles(registry, fileHash, p);
    DefaultsConvert(settings, p.settings);
    if Defaults(p.settings).Ok? {
      var defaults := Defaults(p.settings).value;
      LayersNeverBlame(settings, p.settings, file.entries, defaults, true);
      var first := ApplyLayer(p.settings, file.entries, defaults, true);
      if first.Ok? { LayersNeverBlame(settings, p.settings, command.entries, first.value, false); }
    }
  }

  lemma LayersNeverBlame(settings: seq<Value>, specs: seq<Spec>, entries: seq<Entry>, values: Values,
      permitsSecrets: bool)
    requires ValidSettings(settings) && CompileSettings(settings) == Some(specs)
    ensures ApplyLayer(specs, entries, values, permitsSecrets) != Err(InvalidProjection)
  {
    hide ValidSettings, CompileSettings, EntryError, ApplyLayer;
    forall e | e in entries ensures EntryError(specs, e, permitsSecrets) != Some(InvalidProjection) {
      EntriesNeverBlame(settings, specs, e, permitsSecrets);
    }
    LayerNeverBlames(specs, entries, values, permitsSecrets);
  }

  // Some setting of that name has the value inside its safety bounds.
  predicate SafeSetting(settings: seq<Value>, id: string, value: Setting) {
    exists i :: 0 <= i < |settings| && IdOf(settings[i]) == id && WithinSafety(Bound(settings[i], "safety"), value)
  }

  // Whatever a load yields, from whichever layer, lies inside the safety bounds of its setting.
  lemma LoadedIsSafe(registry: Fields, digest: Value -> string, fileHash: string, file: Layer,
      command: Layer, id: string)
    requires ValidRegistry(registry, digest) && Compile(registry, fileHash).Some?
    requires Load(Compile(registry, fileHash).value, file, command).Ok?
    requires id in Load(Compile(registry, fileHash).value, file, command).value
    ensures SafeSetting(Settings(registry), id, Load(Compile(registry, fileHash).value, file, command).value[id])
  {
    hide Compile, ValidMetadata, Load, CompileSettings, CompileSetting, ValidSetting, Validate, WithinSafety,
         Bound, IdOf, Metadata, Settings, Signed;
    var (p, settings) := (Compile(registry, fileHash).value, Settings(registry));
    var value := Load(p, file, command).value[id];
    LoadedIsValid(p, file, command, id);
    MetadataCompiles(registry, fileHash, p);
    CompiledSettingsAt(settings);
    var i :| 0 <= i < |p.settings| && p.settings[i].id == id && Validate(p.settings[i], value).None?;
    assert ValidSetting(settings[i]);
    SpecNamed(settings[i]);
    AcceptedIsSafe(settings[i], value);
  }

  /* ---------- a negative duration is let through ---------- */

  const NEGATIVE: Fields := map["minimum" := Int(-5), "maximum" := Int(5)]
  const NEGATIVE_BOUNDS := Dict(map["operational" := Dict(NEGATIVE), "safety" := Dict(NEGATIVE)])
  const NEGATIVE_POLICY := Dict(map["mode" := Str("default"), "default" := Int(-1)])

  lemma NegativeBoundsAreValid()
    ensures ValidBounds(DurationSeconds, NEGATIVE_BOUNDS)
  {
    assert NEGATIVE.Keys == {"minimum", "maximum"};
    assert NEGATIVE_BOUNDS.fields.Keys == {"operational", "safety"};
    assert Words(NEGATIVE, "pattern") == None;
    assert "allowed" !in NEGATIVE;
  }

  lemma NegativePolicyIsValid()
    ensures ValidPolicy(DurationSeconds, NEGATIVE_POLICY, NEGATIVE)
  {
    assert NEGATIVE_POLICY.fields.Keys == {"mode", "default"};
  }

  // Any accepted duration setting stays accepted with these bounds and this default, which the
  // runtime refuses.
  lemma NegativeDurationIsAccepted(v: Value)
    requires ValidSetting(v) && KindOfSetting(v).DurationSeconds?
    ensures var w := Dict(v.fields["bounds" := NEGATIVE_BOUNDS]["value_policy" := NEGATIVE_POLICY]);
            ValidSetting(w) && NegativeAmount(w)
  {
    var w := Dict(v.fields["bounds" := NEGATIVE_BOUNDS]["value_policy" := NEGATIVE_POLICY]);
    NegativeBoundsAreValid();
    NegativePolicyIsValid();
    assert w.fields.Keys == v.fields.Keys;
    assert SubFields(w, "value") == SubFields(v, "value");
    assert Bound(w, "operational") == NEGATIVE && SubFields(w, "value_policy") == NEGATIVE_POLICY.fields;
    hide ValidBounds, ValidPolicy, ValidLogPolicy, ValidPrecedence, ValidDeprecation, IsSettingId, ValidKind, TextIn;
  }
}
