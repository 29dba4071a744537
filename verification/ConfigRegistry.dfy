/**
 * The configuration generator: which registries it accepts, what it compiles a setting to, and what
 * that guarantees of the runtime.
 */
module ConfigRegistry {
  import opened Bytes
  import opened Decimal
  import opened ConfigRuntime
  import opened RustLiteral

  // A JSON value as the generator loads it: no floating-point numbers, no repeated keys.
  datatype Value =
    | Null
    | Boolean(b: bool)
    | Int(n: int)
    | Str(s: string)
    | List(items: seq<Value>)
    | Dict(fields: map<string, Value>)

  type Fields = map<string, Value>

  /* ---------- shapes ---------- */

  predicate IsText(v: Value) {
    v.Str? && v.s != ""
  }

  predicate IsInteger(v: Value) {
    v.Int? && I64_MIN <= v.n <= I64_MAX
  }

  // Non-empty strings, none of them twice.
  predicate IsStringList(v: Value) {
    && v.List?
    && (forall i :: 0 <= i < |v.items| ==> IsText(v.items[i]))
    && (forall i, j :: 0 <= i < j < |v.items| ==> v.items[i] != v.items[j])
  }

  predicate HasText(d: Fields, key: string) {
    key in d && IsText(d[key])
  }

  predicate HasInteger(d: Fields, key: string) {
    key in d && IsInteger(d[key])
  }

  predicate TextIn(d: Fields, key: string, choices: set<string>) {
    HasText(d, key) && d[key].s in choices
  }

  function Number(d: Fields, key: string): Option<int> {
    if key in d && d[key].Int? then Some(d[key].n) else None
  }

  function Words(d: Fields, key: string): Option<string> {
    if key in d && d[key].Str? then Some(d[key].s) else None
  }

  function Texts(d: Fields, key: string): seq<Value> {
    if key in d && d[key].List? then d[key].items else []
  }

  function KindNamed(name: string): Option<Kind> {
    match name
    case "integer" => Some(Integer)
    case "duration-seconds" => Some(DurationSeconds)
    case "bytes" => Some(ByteCount)
    case "string" => Some(Text)
    case "path" => Some(FilePath)
    case "string-list" => Some(StringList)
    case "secret-reference" => Some(SecretReference)
    case _ => None
  }

  predicate IsNumeric(kind: Kind) {
    kind.Integer? || kind.DurationSeconds? || kind.ByteCount?
  }

  predicate IsTextual(kind: Kind) {
    kind.Text? || kind.FilePath?
  }

  /* ---------- bounds ---------- */

  const TEXT_KEYS: set<string> := {"minimum_length", "maximum_length", "pattern", "allowed"}

  predicate InOrder(d: Fields, low: string, high: string) {
    Number(d, low).Some? && Number(d, high).Some? ==> Number(d, low).value <= Number(d, high).value
  }

  predicate ValidTextBounds(d: Fields) {
    && d.Keys <= TEXT_KEYS && d.Keys != {}
    && ("allowed" in d ==> IsStringList(d["allowed"]) && d["allowed"].items != [])
    && ("pattern" in d ==> TextIn(d, "pattern", {CONFIG_PATTERN, NAME_PATTERN}))
    && ("minimum_length" in d ==> HasInteger(d, "minimum_length") && d["minimum_length"].n >= 0)
    && ("maximum_length" in d ==> HasInteger(d, "maximum_length") && d["maximum_length"].n >= 0)
    && InOrder(d, "minimum_length", "maximum_length")
  }

  predicate ValidOperational(kind: Kind, d: Fields) {
    if IsNumeric(kind) then
      d.Keys == {"minimum", "maximum"} && HasInteger(d, "minimum") && HasInteger(d, "maximum")
      && InOrder(d, "minimum", "maximum")
    else if IsTextual(kind) then ValidTextBounds(d)
    else if kind.StringList? then
      d.Keys == {"minimum_items", "maximum_items"} && HasInteger(d, "minimum_items") && HasInteger(d, "maximum_items")
      && d["minimum_items"].n >= 0 && InOrder(d, "minimum_items", "maximum_items")
    else
      d.Keys == {"allowed"} && IsStringList(d["allowed"]) && d["allowed"].items == [Str("mounted-file")]
  }

  const CEILING_KEYS: set<string> := {
    "minimum", "maximum", "minimum_items", "maximum_items", "minimum_length", "maximum_length", "allowed", "pattern"
  }

  predicate AboveFloor(operational: Fields, safety: Fields, key: string) {
    Number(operational, key).Some? && Number(safety, key).Some? ==>
      Number(operational, key).value >= Number(safety, key).value
  }

  predicate BelowCeiling(operational: Fields, safety: Fields, key: string) {
    Number(operational, key).Some? && Number(safety, key).Some? ==>
      Number(operational, key).value <= Number(safety, key).value
  }

  predicate ValidSafetyCeiling(operational: Fields, safety: Fields) {
    && (forall key :: key in CEILING_KEYS && key in safety ==> key in operational)
    && AboveFloor(operational, safety, "minimum") && AboveFloor(operational, safety, "minimum_items")
    && AboveFloor(operational, safety, "minimum_length")
    && BelowCeiling(operational, safety, "maximum") && BelowCeiling(operational, safety, "maximum_items")
    && BelowCeiling(operational, safety, "maximum_length")
    && ("allowed" in operational && "allowed" in safety ==>
          forall item :: item in Texts(operational, "allowed") ==> item in Texts(safety, "allowed"))
    && Words(operational, "pattern") == Words(safety, "pattern")
  }

  /* ---------- defaults ---------- */

  predicate ValidText(s: string, d: Fields) {
    && Utf8Length(s) >= Number(d, "minimum_length").GetOr(0)
    && Utf8Length(s) <= Number(d, "maximum_length").GetOr(Utf8Length(s))
    && (Texts(d, "allowed") != [] ==> Str(s) in Texts(d, "allowed"))
    && (Words(d, "pattern") == Some(NAME_PATTERN) ==> IsIdentifier(s))
    && (Words(d, "pattern") == Some(CONFIG_PATTERN) ==> ValidMountedPath(s, "/run/config/"))
  }

  predicate ValidDefault(kind: Kind, v: Value, d: Fields) {
    if IsNumeric(kind) then IsInteger(v) && Number(d, "minimum").GetOr(0) <= v.n <= Number(d, "maximum").GetOr(0)
    else if IsTextual(kind) then v.Str? && ValidText(v.s, d)
    else if kind.StringList? then
      IsStringList(v) && Number(d, "minimum_items").GetOr(0) <= |v.items| <= Number(d, "maximum_items").GetOr(0)
    else false
  }

  /* ---------- one setting ---------- */

  const SETTING_KEYS: set<string> := {
    "bounds", "classification", "deprecation", "description", "id", "log_policy", "owner", "precedence",
    "reload", "value", "value_policy"
  }
  const POLICY_LEVELS: set<string> := {"allowed", "redacted", "denied"}
  const PRECEDENCE_LEVELS: set<string> := {
    "command", "owner-file", "deployment-adapter", "secure-default", "secret-reference-file"
  }

  // ^backend\.[a-z][a-z0-9.-]*$, of at most 128 characters.
  predicate IsSettingId(s: string) {
    "backend." <= s && |s| <= 128 && |s| > 8 && IsLower(s[8])
    && forall c :: c in s[9..] ==> IsLower(c) || IsDigit(c) || c == '.' || c == '-'
  }

  predicate ValidDeprecation(v: Value) {
    v.Dict? && v.fields.Keys == {"status"} && v.fields["status"] == Str("active")
  }

  predicate ValidLogPolicy(v: Value) {
    && v.Dict? && v.fields.Keys == {"diagnostics", "logs", "reason", "support_bundles"}
    && HasText(v.fields, "reason") && TextIn(v.fields, "diagnostics", POLICY_LEVELS)
    && TextIn(v.fields, "logs", POLICY_LEVELS) && TextIn(v.fields, "support_bundles", POLICY_LEVELS)
  }

  predicate ValidPrecedence(v: Value) {
    IsStringList(v) && v.items != [] && forall item :: item in v.items ==> item.Str? && item.s in PRECEDENCE_LEVELS
  }

  predicate ValidKind(v: Value) {
    && v.Dict? && Words(v.fields, "kind").Some? && KindNamed(Words(v.fields, "kind").value).Some?
    && if KindNamed(Words(v.fields, "kind").value).value.SecretReference?
       then v.fields.Keys == {"kind", "reference_type"} && v.fields["reference_type"] == Str("mounted-file")
       else v.fields.Keys == {"kind"}
  }

  predicate ValidBounds(kind: Kind, v: Value) {
    && v.Dict? && v.fields.Keys == {"operational", "safety"}
    && v.fields["operational"].Dict? && v.fields["safety"].Dict?
    && ValidOperational(kind, v.fields["operational"].fields)
    && ValidOperational(kind, v.fields["safety"].fields)
    && ValidSafetyCeiling(v.fields["operational"].fields, v.fields["safety"].fields)
  }

  predicate ValidPolicy(kind: Kind, v: Value, operational: Fields) {
    && v.Dict? && TextIn(v.fields, "mode", {"default", "required"})
    && if v.fields["mode"].s == "required" then v.fields.Keys == {"mode"}
       else v.fields.Keys == {"mode", "default"} && ValidDefault(kind, v.fields["default"], operational)
  }

  // Everything the generator asks of one setting by itself.
  predicate ValidSetting(v: Value) {
    && v.Dict? && v.fields.Keys == SETTING_KEYS
    && v.fields["id"].Str? && IsSettingId(v.fields["id"].s)
    && v.fields["owner"] == Str("backend")
    && TextIn(v.fields, "classification", {"runtime-nonsensitive", "runtime-secret-file-reference"})
    && HasText(v.fields, "description") && ValidDeprecation(v.fields["deprecation"])
    && ValidLogPolicy(v.fields["log_policy"]) && ValidPrecedence(v.fields["precedence"])
    && TextIn(v.fields, "reload", {"immediate", "new-session", "restart"})
    && ValidKind(v.fields["value"])
    && ValidBounds(KindOfSetting(v), v.fields["bounds"])
    && ValidPolicy(KindOfSetting(v), v.fields["value_policy"], Bound(v, "operational"))
  }

  function SubFields(v: Value, key: string): Fields {
    if v.Dict? && key in v.fields && v.fields[key].Dict? then v.fields[key].fields else map[]
  }

  function KindOfSetting(v: Value): Kind {
    KindNamed(Words(SubFields(v, "value"), "kind").GetOr("")).GetOr(Integer)
  }

  // The operational or the safety bounds of a setting.
  function Bound(v: Value, which: string): Fields {
    SubFields(Dict(SubFields(v, "bounds")), which)
  }

  function IdOf(v: Value): string {
    if v.Dict? then Words(v.fields, "id").GetOr("") else ""
  }

  function OwnerOf(v: Value): string {
    if v.Dict? then Words(v.fields, "owner").GetOr("") else ""
  }

  /* ---------- the registry ---------- */

  predicate IsHash(s: string) {
    |s| == 71 && "sha256:" <= s && forall c :: c in s[7..] ==> IsDigit(c) || 'a' <= c <= 'f'
  }

  const METADATA_KEYS: set<string> := {
    "banner", "catalog_version", "owner", "projection_integrity", "read_only", "source", "source_integrity"
  }

  predicate ValidMetadata(d: Fields) {
    && d.Keys == METADATA_KEYS
    && d["banner"] == Str("GENERATED: read-only owner projection; edit contracts/registry/settings.json")
    && d["catalog_version"] == Int(1) && d["owner"] == Str("backend") && d["read_only"] == Boolean(true)
    && d["source"] == Str("contracts/registry/settings.json")
    && d["projection_integrity"].Str? && IsHash(d["projection_integrity"].s)
    && d["source_integrity"].Str? && IsHash(d["source_integrity"].s)
  }

  predicate ValidSettings(settings: seq<Value>) {
    && |settings| == 34
    && (forall i :: 0 <= i < |settings| ==> ValidSetting(settings[i]))
    && (forall i, j :: 0 <= i < j < |settings| ==> IdOf(settings[i]) != IdOf(settings[j]))
  }

  function Metadata(registry: Fields): Fields {
    SubFields(Dict(registry), "_generated")
  }

  function Settings(registry: Fields): seq<Value> {
    Texts(registry, "settings")
  }

  // What the registry's own integrity is the digest of.
  function Signed(registry: Fields): Value {
    Dict(map["generated" := Dict(Metadata(registry) - {"projection_integrity"}),
             "settings" := List(Settings(registry))])
  }

  predicate ValidRegistry(registry: Fields, digest: Value -> string) {
    && registry.Keys == {"_generated", "settings"} && registry["_generated"].Dict? && registry["settings"].List?
    && ValidMetadata(Metadata(registry)) && ValidSettings(Settings(registry))
    && Words(Metadata(registry), "projection_integrity") == Some(digest(Signed(registry)))
  }

  // Setting by setting, with the names seen so far.
  method CheckSettings(settings: seq<Value>) returns (ok: bool)
    ensures ok <==> ValidSettings(settings)
  {
    hide ValidSetting, IdOf;
    if |settings| != 34 { return false; }
    var seen: set<string> := {};
    for i := 0 to |settings|
      invariant forall j :: 0 <= j < i ==> ValidSetting(settings[j]) && IdOf(settings[j]) in seen
      invariant forall id :: id in seen ==> exists j :: 0 <= j < i && IdOf(settings[j]) == id
      invariant forall j, k :: 0 <= j < k < i ==> IdOf(settings[j]) != IdOf(settings[k])
    {
      if !ValidSetting(settings[i]) || IdOf(settings[i]) in seen { return false; }
      seen := seen + {IdOf(settings[i])};
    }
    ok := true;
  }

  method CheckRegistry(registry: Fields, digest: Value -> string) returns (ok: bool)
    ensures ok <==> ValidRegistry(registry, digest)
  {
    hide ValidSettings, ValidMetadata;
    if registry.Keys != {"_generated", "settings"} || !registry["_generated"].Dict? || !registry["settings"].List?
       || !ValidMetadata(Metadata(registry)) {
      return false;
    }
    var settingsOk := CheckSettings(Settings(registry));
    ok := settingsOk && Words(Metadata(registry), "projection_integrity") == Some(digest(Signed(registry)));
  }

  /* ---------- compiling ---------- */

  // The strings of a list as the compiled program has them.
  function CompiledList(items: seq<Value>): Option<seq<string>> {
    if items == [] then Some([])
    else
      var (before, last) := (CompiledList(items[..|items| - 1]), items[|items| - 1]);
      if before.None? || !last.Str? || Compiled(last.s).None? then None
      else Some(before.value + [Compiled(last.s).value])
  }

  // A string that need not be there.
  function CompiledOption(s: Option<string>): Option<Option<string>> {
    if s.None? then Some(None)
    else if Compiled(s.value).None? then None
    else Some(Compiled(s.value))
  }

  function CompiledDefault(kind: Kind, policy: Fields): Option<Option<Default>> {
    if Words(policy, "mode") == Some("required") then Some(None)
    else if IsNumeric(kind) && Number(policy, "default").Some? then
      Some(Some(NumberDefault(Number(policy, "default").value)))
    else if IsTextual(kind) && Words(policy, "default").Some? then
      var s := Compiled(Words(policy, "default").value);
      if s.None? then None else Some(Some(TextDefault(s.value)))
    else None
  }

  // The specification a setting is compiled to; None when it is not rendered or does not compile.
  function CompileSetting(v: Value): Option<Spec> {
    var d := Bound(v, "operational");
    var (id, owner) := (Compiled(IdOf(v)), Compiled(OwnerOf(v)));
    var (pattern, allowed) := (CompiledOption(Words(d, "pattern")), CompiledList(Texts(d, "allowed")));
    var reference := CompiledOption(Words(SubFields(v, "value"), "reference_type"));
    var default := CompiledDefault(KindOfSetting(v), SubFields(v, "value_policy"));
    if id.None? || owner.None? || pattern.None? || allowed.None? || reference.None? || default.None? then None
    else
      Some(Spec(
        id.value, owner.value, KindOfSetting(v),
        Constraints(
          Number(d, "minimum"), Number(d, "maximum"), Number(d, "minimum_length"), Number(d, "maximum_length"),
          Number(d, "minimum_items"), Number(d, "maximum_items"), pattern.value, allowed.value, reference.value),
        if Words(SubFields(v, "value_policy"), "mode") == Some("required") then Required else HasDefault,
        default.value))
  }

  function CompileSettings(settings: seq<Value>): Option<seq<Spec>> {
    if settings == [] then Some([])
    else
      var (before, last) := (CompileSettings(settings[..|settings| - 1]), CompileSetting(settings[|settings| - 1]));
      if before.None? || last.None? then None else Some(before.value + [last.value])
  }

  // The whole projection, given the hash of the registry file.
  function Compile(registry: Fields, fileHash: string): Option<Projection> {
    var specs := CompileSettings(Settings(registry));
    var d := Metadata(registry);
    var (source, integrity, owner) :=
      (Compiled(Words(d, "source_integrity").GetOr("")), Compiled(Words(d, "projection_integrity").GetOr("")),
       Compiled(Words(d, "owner").GetOr("")));
    if specs.None? || source.None? || integrity.None? || owner.None? then None
    else
      Some(Projection(Number(d, "catalog_version").GetOr(0), owner.value, specs.value,
                 [fileHash, source.value, integrity.value]))
  }
}
