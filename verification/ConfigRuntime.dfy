/**
 * The configuration runtime: generated setting specifications, the checks on their values, and the
 * layered resolution of an owner file and a command line over the defaults.
 */
module ConfigRuntime {
  import opened Bytes
  import opened Decimal

  datatype Kind = Integer | DurationSeconds | ByteCount | Text | FilePath | StringList | SecretReference

  datatype Setting =
    | IntegerValue(n: int)
    | DurationValue(seconds: nat)
    | BytesValue(bytes: nat)
    | TextValue(text: string)
    | PathValue(path: string)
    | ListValue(items: seq<string>)
    | SecretValue(reference: string)

  function KindOf(v: Setting): Kind {
    match v
    case IntegerValue(_) => Integer
    case DurationValue(_) => DurationSeconds
    case BytesValue(_) => ByteCount
    case TextValue(_) => Text
    case PathValue(_) => FilePath
    case ListValue(_) => StringList
    case SecretValue(_) => SecretReference
  }

  datatype Constraints = Constraints(
    minimum: Option<int>, maximum: Option<int>,
    minimumLength: Option<int>, maximumLength: Option<int>,
    minimumItems: Option<int>, maximumItems: Option<int>,
    pattern: Option<string>, allowed: seq<string>, referenceType: Option<string>)

  datatype Default = NumberDefault(n: int) | TextDefault(text: string)

  datatype Mode = HasDefault | Required

  datatype Spec = Spec(id: string, owner: string, kind: Kind, constraints: Constraints,
      mode: Mode, default: Option<Default>)

  datatype ErrorCode =
    | UnknownSetting | DuplicateSetting | OwnerMismatch | VersionMismatch | TypeMismatch | OutOfBounds
    | InvalidSecretReference | SecretReferenceSource | MissingRequired | InvalidProjection

  /* ---------- texts ---------- */

  predicate IsLower(c: char) { 'a' <= c <= 'z' }

  predicate IsAlphanumeric(c: char) { IsLower(c) || IsDigit(c) || 'A' <= c <= 'Z' }

  // The parts between the separators.
  function Split(s: string, separator: char): (parts: seq<string>)
    ensures parts != []
  {
    if s == "" then [""]
    else
      var rest := Split(s[1..], separator);
      if s[0] == separator then [""] + rest else [[s[0]] + rest[0]] + rest[1..]
  }

  predicate IsPathPart(part: string) {
    part != "" && part != "." && part != ".."
    && forall c :: c in part ==> IsAlphanumeric(c) || c == '.' || c == '_' || c == '-'
  }

  predicate ValidMountedPath(path: string, prefix: string) {
    prefix <= path && path != prefix && forall part :: part in Split(path[|prefix|..], '/') ==> IsPathPart(part)
  }

  function Join(parts: seq<string>, separator: char): string
    requires parts != []
  {
    if |parts| == 1 then parts[0] else parts[0] + [separator] + Join(parts[1..], separator)
  }

  lemma {:induction false} SplitJoins(s: string, separator: char)
    ensures Join(Split(s, separator), separator) == s
    ensures forall part :: part in Split(s, separator) ==> separator !in part
  {
    if s != "" {
      SplitJoins(s[1..], separator);
      var rest := Split(s[1..], separator);
      assert s == [s[0]] + s[1..];
      if s[0] == separator {
        assert ([""] + rest)[1..] == rest;
      } else {
        var parts := [[s[0]] + rest[0]] + rest[1..];
        assert parts[1..] == rest[1..];
        if |rest| > 1 {
          assert Join(parts, separator) == [s[0]] + (rest[0] + [separator] + Join(rest[1..], separator));
        }
      }
    }
  }

  lemma {:induction false} SplitFirst(part: string, rest: string, separator: char)
    requires separator !in part
    ensures Split(part, separator) == [part]
    ensures Split(part + [separator] + rest, separator) == [part] + Split(rest, separator)
  {
    var s := part + [separator] + rest;
    if part == "" {
      assert s[0] == separator && s[1..] == rest;
    } else {
      SplitFirst(part[1..], rest, separator);
      assert part[0] in part && s[0] == part[0] && s[1..] == part[1..] + [separator] + rest;
      assert [part[0]] + part[1..] == part;
    }
  }

  lemma {:induction false} JoinSplits(parts: seq<string>, separator: char)
    requires parts != [] && forall part :: part in parts ==> separator !in part
    ensures Split(Join(parts, separator), separator) == parts
  {
    if |parts| == 1 {
      SplitFirst(parts[0], "", separator);
    } else {
      assert parts[0] in parts && forall part :: part in parts[1..] ==> part in parts;
      JoinSplits(parts[1..], separator);
      SplitFirst(parts[0], Join(parts[1..], separator), separator);
    }
  }

  ghost predicate IsBelow(path: string, prefix: string, parts: seq<string>) {
    parts != [] && path == prefix + Join(parts, '/') && forall part :: part in parts ==> IsPathPart(part)
  }

  // A path is valid exactly when it is the prefix followed by one or more named components, none of
  // them empty, "." or "..": it cannot leave the mounted directory.
  lemma MountedPathStaysBelow(path: string, prefix: string)
    ensures ValidMountedPath(path, prefix) <==> exists parts :: IsBelow(path, prefix, parts)
  {
    if ValidMountedPath(path, prefix) {
      var parts := Split(path[|prefix|..], '/');
      SplitJoins(path[|prefix|..], '/');
      assert IsBelow(path, prefix, parts);
    }
    if exists parts :: IsBelow(path, prefix, parts) {
      var parts :| IsBelow(path, prefix, parts);
      assert path[|prefix|..] == Join(parts, '/');
      JoinSplits(parts, '/');
      assert parts[0] in parts;
      JoinNotEmpty(parts, '/');
    }
  }

  lemma JoinNotEmpty(parts: seq<string>, separator: char)
    requires parts != [] && parts[0] != ""
    ensures Join(parts, separator) != ""
  {
  }

  predicate IsIdentifier(s: string) {
    s != "" && IsLower(s[0]) && forall c :: c in s[1..] ==> IsLower(c) || IsDigit(c) || c == '_'
  }

  const CONFIG_PATTERN := "^/run/config/"
  const NAME_PATTERN := "^[a-z][a-z0-9_]*$"

  predicate MatchesPattern(pattern: string, value: string) {
    if pattern == CONFIG_PATTERN then ValidMountedPath(value, "/run/config/")
    else pattern == NAME_PATTERN && IsIdentifier(value)
  }

  predicate ValidSecretReference(path: string) {
    ValidMountedPath(path, "/run/secrets/") && Utf8Length(path) <= 268
  }

  /* ---------- one value ---------- */

  // None when the value is accepted.
  function Validate(spec: Spec, value: Setting): Option<ErrorCode> {
    if KindOf(value) != spec.kind then Some(TypeMismatch)
    else
      match value
      case IntegerValue(n) => ValidateNumber(spec, n)
      case DurationValue(n) => if n > I64_MAX then Some(OutOfBounds) else ValidateNumber(spec, n)
      case BytesValue(n) => if n > I64_MAX then Some(OutOfBounds) else ValidateNumber(spec, n)
      case TextValue(s) => ValidateText(spec, s)
      case PathValue(s) => ValidateText(spec, s)
      case ListValue(items) => ValidateItems(spec, |items|)
      case SecretValue(path) => ValidateSecret(spec, path)
  }

  function ValidateNumber(spec: Spec, n: int): Option<ErrorCode> {
    var c := spec.constraints;
    if c.minimum.None? || c.maximum.None? then Some(InvalidProjection)
    else if c.minimum.value <= n <= c.maximum.value then None
    else Some(OutOfBounds)
  }

  function ValidateText(spec: Spec, s: string): Option<ErrorCode> {
    var c := spec.constraints;
    if (c.minimumLength.Some? && Utf8Length(s) < c.minimumLength.value)
       || (c.maximumLength.Some? && Utf8Length(s) > c.maximumLength.value)
       || (c.allowed != [] && s !in c.allowed)
       || (c.pattern.Some? && !MatchesPattern(c.pattern.value, s))
    then Some(OutOfBounds) else None
  }

  function ValidateItems(spec: Spec, count: nat): Option<ErrorCode> {
    var c := spec.constraints;
    if c.minimumItems.None? || c.maximumItems.None? then Some(InvalidProjection)
    else if c.minimumItems.value <= count <= c.maximumItems.value then None
    else Some(OutOfBounds)
  }

  function ValidateSecret(spec: Spec, path: string): Option<ErrorCode> {
    if spec.constraints.referenceType != Some("mounted-file") || spec.constraints.allowed != ["mounted-file"]
    then Some(InvalidProjection)
    else if ValidSecretReference(path) then None
    else Some(InvalidSecretReference)
  }

  // The value a default stands for; a number below zero is neither a duration nor a size.
  function ConvertDefault(kind: Kind, default: Default): Option<Setting> {
    match (kind, default)
    case (Integer, NumberDefault(n)) => Some(IntegerValue(n))
    case (DurationSeconds, NumberDefault(n)) => if n < 0 then None else Some(DurationValue(n))
    case (ByteCount, NumberDefault(n)) => if n < 0 then None else Some(BytesValue(n))
    case (Text, TextDefault(s)) => Some(TextValue(s))
    case (FilePath, TextDefault(s)) => Some(PathValue(s))
    case _ => None
  }

  function DefaultValue(spec: Spec): Result<Option<Setting>, ErrorCode> {
    if spec.default.None? then Ok(None)
    else
      var value := ConvertDefault(spec.kind, spec.default.value);
      if value.None? then Err(InvalidProjection)
      else
        var failure := Validate(spec, value.value);
        if failure.Some? then Err(failure.value) else Ok(value)
  }

  /* ---------- the projection ---------- */

  datatype Projection = Projection(catalogVersion: int, owner: string, settings: seq<Spec>, digests: seq<string>)

  predicate ModeMatches(spec: Spec) {
    (spec.mode == HasDefault ==> spec.default.Some?) && (spec.mode == Required ==> spec.default.None?)
  }

  predicate DistinctIds(specs: seq<Spec>) {
    forall i, j :: 0 <= i < j < |specs| ==> specs[i].id != specs[j].id
  }

  predicate ValidSpec(owner: string, spec: Spec) {
    spec.owner == owner && "backend." <= spec.id && ModeMatches(spec)
  }

  predicate ValidProjection(p: Projection) {
    && p.catalogVersion == 1 && p.owner == "backend" && |p.settings| == 34
    && (forall d :: d in p.digests ==> "sha256:" <= d && Utf8Length(d) == 71)
    && (forall i :: 0 <= i < |p.settings| ==> ValidSpec(p.owner, p.settings[i]))
    && DistinctIds(p.settings)
  }

  /* ---------- layers ---------- */

  datatype Entry = Entry(id: string, value: Setting)

  datatype Layer = Layer(catalogVersion: int, owner: string, entries: seq<Entry>)

  type Values = map<string, Setting>

  // The last specification of that name.
  function Find(specs: seq<Spec>, id: string): (spec: Option<Spec>)
    ensures spec.Some? ==> spec.value in specs && spec.value.id == id
  {
    if specs == [] then None
    else if specs[|specs| - 1].id == id then Some(specs[|specs| - 1])
    else Find(specs[..|specs| - 1], id)
  }

  // Why an entry is refused on its own.
  function EntryError(specs: seq<Spec>, e: Entry, permitsSecrets: bool): Option<ErrorCode> {
    var spec := Find(specs, e.id);
    if spec.None? then Some(UnknownSetting)
    else if e.value.SecretValue? && !permitsSecrets then Some(SecretReferenceSource)
    else Validate(spec.value, e.value)
  }

  predicate HasEntry(entries: seq<Entry>, id: string) {
    exists i :: 0 <= i < |entries| && entries[i].id == id
  }

  function ApplyLayer(specs: seq<Spec>, entries: seq<Entry>, values: Values, permitsSecrets: bool)
      : Result<Values, ErrorCode>
  {
    if entries == [] then Ok(values)
    else
      var (before, e) := (entries[..|entries| - 1], entries[|entries| - 1]);
      var applied := ApplyLayer(specs, before, values, permitsSecrets);
      var failure := EntryError(specs, e, permitsSecrets);
      if applied.Err? then applied
      else if HasEntry(before, e.id) then Err(DuplicateSetting)
      else if failure.Some? then Err(failure.value)
      else Ok(applied.value[e.id := e.value])
  }

  function Defaults(specs: seq<Spec>): Result<Values, ErrorCode> {
    if specs == [] then Ok(map[])
    else
      var (before, value) := (Defaults(specs[..|specs| - 1]), DefaultValue(specs[|specs| - 1]));
      if before.Err? then before
      else if value.Err? then Err(value.error)
      else if value.value.None? then before
      else Ok(before.value[specs[|specs| - 1].id := value.value.value])
  }

  function Load(p: Projection, file: Layer, command: Layer): Result<Values, ErrorCode> {
    if !ValidProjection(p) then Err(InvalidProjection)
    else if file.owner != p.owner || command.owner != p.owner then Err(OwnerMismatch)
    else if file.catalogVersion != p.catalogVersion || command.catalogVersion != p.catalogVersion
    then Err(VersionMismatch)
    else
      var defaults := Defaults(p.settings);
      if defaults.Err? then defaults
      else
        var first := ApplyLayer(p.settings, file.entries, defaults.value, true);
        if first.Err? then first
        else
          var second := ApplyLayer(p.settings, command.entries, first.value, false);
          if second.Err? then second
          else if exists i ::
                    0 <= i < |p.settings| && p.settings[i].mode == Required && p.settings[i].id !in second.value
          then Err(MissingRequired)
          else second
  }

  /* ---------- the loops ---------- */

  lemma {:induction false} LayerErrorStays(specs: seq<Spec>, entries: seq<Entry>, values: Values,
      permitsSecrets: bool, n: nat)
    requires n <= |entries| && ApplyLayer(specs, entries[..n], values, permitsSecrets).Err?
    ensures ApplyLayer(specs, entries, values, permitsSecrets)
         == ApplyLayer(specs, entries[..n], values, permitsSecrets)
  {
    hide EntryError, HasEntry;
    if n == |entries| {
      assert entries[..n] == entries;
    } else {
      var before := entries[..|entries| - 1];
      assert before[..n] == entries[..n];
      LayerErrorStays(specs, before, values, permitsSecrets, n);
    }
  }

  method ApplyEntries(specs: seq<Spec>, entries: seq<Entry>, values: Values, permitsSecrets: bool)
    returns (outcome: Result<Values, ErrorCode>)
    ensures outcome == ApplyLayer(specs, entries, values, permitsSecrets)
  {
    hide EntryError;
    var result := values;
    var seen: set<string> := {};
    for i := 0 to |entries|
      invariant ApplyLayer(specs, entries[..i], values, permitsSecrets) == Ok(result)
      invariant forall id :: id in seen <==> HasEntry(entries[..i], id)
    {
      var e := entries[i];
      assert entries[..i + 1][..i] == entries[..i];
      if e.id in seen {
        LayerErrorStays(specs, entries, values, permitsSecrets, i + 1);
        return Err(DuplicateSetting);
      }
      var failure := EntryError(specs, e, permitsSecrets);
      if failure.Some? {
        LayerErrorStays(specs, entries, values, permitsSecrets, i + 1);
        return Err(failure.value);
      }
      EntryAdded(entries, i);
      seen := seen + {e.id};
      result := result[e.id := e.value];
    }
    assert entries[..|entries|] == entries;
    outcome := Ok(result);
  }

  lemma EntryAdded(entries: seq<Entry>, i: nat)
    requires i < |entries|
    ensures forall id :: HasEntry(entries[..i + 1], id) <==> HasEntry(entries[..i], id) || id == entries[i].id
  {
    forall id | HasEntry(entries[..i], id) ensures HasEntry(entries[..i + 1], id) {
      var k :| 0 <= k < i && entries[..i][k].id == id;
      assert entries[..i + 1][k].id == id;
    }
    assert entries[..i + 1][i].id == entries[i].id;
    forall id | HasEntry(entries[..i + 1], id) && id != entries[i].id ensures HasEntry(entries[..i], id) {
      var k :| 0 <= k < i + 1 && entries[..i + 1][k].id == id;
      assert entries[..i][k].id == id;
    }
  }

  lemma {:induction false} DefaultErrorStays(specs: seq<Spec>, n: nat)
    requires n <= |specs| && Defaults(specs[..n]).Err?
    ensures Defaults(specs) == Defaults(specs[..n])
  {
    hide DefaultValue;
    if n == |specs| {
      assert specs[..n] == specs;
    } else {
      var before := specs[..|specs| - 1];
      assert before[..n] == specs[..n];
      DefaultErrorStays(before, n);
    }
  }

  method TakeDefaults(specs: seq<Spec>) returns (outcome: Result<Values, ErrorCode>)
    ensures outcome == Defaults(specs)
  {
    hide DefaultValue;
    var values: Values := map[];
    for i := 0 to |specs|
      invariant Defaults(specs[..i]) == Ok(values)
    {
      assert specs[..i + 1][..i] == specs[..i];
      var default := DefaultValue(specs[i]);
      if default.Err? {
        DefaultErrorStays(specs, i + 1);
        return Err(default.error);
      }
      if default.value.Some? {
        values := values[specs[i].id := default.value.value];
      }
    }
    assert specs[..|specs|] == specs;
    outcome := Ok(values);
  }

  method CheckProjection(p: Projection) returns (ok: bool)
    ensures ok <==> ValidProjection(p)
  {
    if p.catalogVersion != 1 || p.owner != "backend" || |p.settings| != 34
       || exists d :: d in p.digests && !("sha256:" <= d && Utf8Length(d) == 71) {
      return false;
    }
    hide Utf8Length, ModeMatches;
    var ids: set<string> := {};
    for i := 0 to |p.settings|
      invariant forall j :: 0 <= j < i ==> ValidSpec(p.owner, p.settings[j]) && p.settings[j].id in ids
      invariant forall id :: id in ids ==> exists j :: 0 <= j < i && p.settings[j].id == id
      invariant forall j, k :: 0 <= j < k < i ==> p.settings[j].id != p.settings[k].id
    {
      var spec := p.settings[i];
      if spec.owner != p.owner || !("backend." <= spec.id) || spec.id in ids || !ModeMatches(spec) {
        return false;
      }
      ids := ids + {spec.id};
    }
    ok := true;
  }

  method LoadConfig(p: Projection, file: Layer, command: Layer) returns (outcome: Result<Values, ErrorCode>)
    ensures outcome == Load(p, file, command)
  {
    hide ValidProjection, Defaults, ApplyLayer;
    var valid := CheckProjection(p);
    if !valid { return Err(InvalidProjection); }
    if file.owner != p.owner || command.owner != p.owner { return Err(OwnerMismatch); }
    if file.catalogVersion != p.catalogVersion || command.catalogVersion != p.catalogVersion {
      return Err(VersionMismatch);
    }
    outcome := TakeDefaults(p.settings);
    if outcome.Err? { return; }
    outcome := ApplyEntries(p.settings, file.entries, outcome.value, true);
    if outcome.Err? { return; }
    outcome := ApplyEntries(p.settings, command.entries, outcome.value, false);
    if outcome.Err? { return; }
    if exists i :: 0 <= i < |p.settings| && p.settings[i].mode == Required && p.settings[i].id !in outcome.value {
      return Err(MissingRequired);
    }
  }

  class ConfigLayer {
    var entries: seq<Entry>

    constructor (entries: seq<Entry>)
      ensures this.entries == entries
    {
      this.entries := entries;
    }

    // The first entry of that name is given the value, or a new one is added.
    method Replace(id: string, value: Setting)
      modifies this
      ensures !HasEntry(old(entries), id) ==> entries == old(entries) + [Entry(id, value)]
      ensures HasEntry(old(entries), id) ==>
                exists i :: 0 <= i < |old(entries)| && old(entries)[i].id == id
                            && (forall j :: 0 <= j < i ==> old(entries)[j].id != id)
                            && entries == old(entries)[i := Entry(id, value)]
    {
      for i := 0 to |entries|
        invariant entries == old(entries) && forall j :: 0 <= j < i ==> entries[j].id != id
      {
        if entries[i].id == id {
          entries := entries[i := Entry(id, value)];
          return;
        }
      }
      entries := entries + [Entry(id, value)];
    }
  }

  /* ---------- what a load amounts to ---------- */

  predicate DistinctEntries(entries: seq<Entry>) {
    forall i, j :: 0 <= i < j < |entries| ==> entries[i].id != entries[j].id
  }

  predicate Accepted(specs: seq<Spec>, entries: seq<Entry>, permitsSecrets: bool) {
    DistinctEntries(entries) && forall e :: e in entries ==> EntryError(specs, e, permitsSecrets).None?
  }

  // The value a list of entries gives a setting.
  function EntryValue(entries: seq<Entry>, id: string): Option<Setting> {
    if entries == [] then None
    else if entries[|entries| - 1].id == id then Some(entries[|entries| - 1].value)
    else EntryValue(entries[..|entries| - 1], id)
  }

  function Lookup(values: Values, id: string): Option<Setting> {
    if id in values then Some(values[id]) else None
  }

  function OrElse(first: Option<Setting>, second: Option<Setting>): Option<Setting> {
    if first.Some? then first else second
  }

  lemma DistinctLast(entries: seq<Entry>)
    requires entries != []
    ensures var before := entries[..|entries| - 1];
            DistinctEntries(entries) <==> DistinctEntries(before) && !HasEntry(before, entries[|entries| - 1].id)
  {
    var (before, last) := (entries[..|entries| - 1], entries[|entries| - 1]);
    assert forall i :: 0 <= i < |before| ==> before[i] == entries[i];
  }

  lemma AcceptedLast(specs: seq<Spec>, entries: seq<Entry>, permitsSecrets: bool)
    requires entries != []
    ensures var (before, last) := (entries[..|entries| - 1], entries[|entries| - 1]);
            Accepted(specs, entries, permitsSecrets)
            <==> (Accepted(specs, before, permitsSecrets) && !HasEntry(before, last.id)
                  && EntryError(specs, last, permitsSecrets).None?)
  {
    var (before, last) := (entries[..|entries| - 1], entries[|entries| - 1]);
    DistinctLast(entries);
    assert entries == before + [last];
    assert forall e :: e in entries <==> e in before || e == last;
    hide EntryError, DistinctEntries, HasEntry;
  }

  // A layer is accepted exactly when no name repeats and each entry is accepted on its own; then
  // each setting it names has the entry's value, and every other is as it was.
  lemma {:induction false} LayerMeans(specs: seq<Spec>, entries: seq<Entry>, values: Values,
      permitsSecrets: bool, id: string)
    ensures var r := ApplyLayer(specs, entries, values, permitsSecrets);
            (r.Ok? <==> Accepted(specs, entries, permitsSecrets))
            && (r.Ok? ==> Lookup(r.value, id) == OrElse(EntryValue(entries, id), Lookup(values, id)))
    decreases |entries|
  {
    if entries != [] {
      LayerMeans(specs, entries[..|entries| - 1], values, permitsSecrets, id);
      AcceptedLast(specs, entries, permitsSecrets);
      hide EntryError, HasEntry, Accepted;
    }
  }

  lemma {:induction false} EntryValueIs(entries: seq<Entry>, e: Entry)
    requires DistinctEntries(entries) && e in entries
    ensures EntryValue(entries, e.id) == Some(e.value)
    decreases |entries|
  {
    var (before, last) := (entries[..|entries| - 1], entries[|entries| - 1]);
    if last != e {
      assert entries == before + [last] && e in before;
      EntryValueIs(before, e);
      DistinctLast(entries);
      var i :| 0 <= i < |before| && before[i] == e;
      assert entries[i].id != last.id;
    }
  }

  lemma {:induction false} EntryValueFrom(entries: seq<Entry>, id: string)
    requires EntryValue(entries, id).Some?
    ensures Entry(id, EntryValue(entries, id).value) in entries
    decreases |entries|
  {
    if entries[|entries| - 1].id != id {
      EntryValueFrom(entries[..|entries| - 1], id);
    }
  }

  // A list with distinct names has as many entries as names.
  function Ids(entries: seq<Entry>): set<string> {
    set e | e in entries :: e.id
  }

  lemma {:induction false} DistinctCount(entries: seq<Entry>)
    ensures |Ids(entries)| <= |entries|
    ensures DistinctEntries(entries) <==> |Ids(entries)| == |entries|
    decreases |entries|
  {
    if entries == [] {
      assert Ids(entries) == {};
    } else {
      var (before, last) := (entries[..|entries| - 1], entries[|entries| - 1]);
      DistinctCount(before);
      DistinctLast(entries);
      assert entries == before + [last];
      assert Ids(entries) == Ids(before) + {last.id};
      assert HasEntry(before, last.id) <==> last.id in Ids(before) by {
        if last.id in Ids(before) {
          var e :| e in before && e.id == last.id;
          var i :| 0 <= i < |before| && before[i] == e;
        }
      }
      hide DistinctEntries, HasEntry;
    }
  }

  // The order of a layer's entries decides neither whether it is accepted nor what it yields.
  lemma OrderDoesNotMatter(specs: seq<Spec>, a: seq<Entry>, b: seq<Entry>, values: Values, permitsSecrets: bool)
    requires multiset(a) == multiset(b)
    ensures var (r, s) := (ApplyLayer(specs, a, values, permitsSecrets), ApplyLayer(specs, b, values, permitsSecrets));
            (r.Ok? <==> s.Ok?) && (r.Ok? ==> r == s)
  {
    PermutationMembers(a, b);
    DistinctCount(a);
    DistinctCount(b);
    assert Ids(a) == Ids(b);
    LayerMeans(specs, a, values, permitsSecrets, "");
    LayerMeans(specs, b, values, permitsSecrets, "");
    assert Accepted(specs, a, permitsSecrets) <==> Accepted(specs, b, permitsSecrets);
    var (r, s) := (ApplyLayer(specs, a, values, permitsSecrets), ApplyLayer(specs, b, values, permitsSecrets));
    hide ApplyLayer, EntryError;
    if r.Ok? {
      forall id ensures Lookup(r.value, id) == Lookup(s.value, id) {
        LayerMeans(specs, a, values, permitsSecrets, id);
        LayerMeans(specs, b, values, permitsSecrets, id);
        if EntryValue(a, id).Some? {
          EntryValueFrom(a, id);
          EntryValueIs(b, Entry(id, EntryValue(a, id).value));
        }
        if EntryValue(b, id).Some? {
          EntryValueFrom(b, id);
          EntryValueIs(a, Entry(id, EntryValue(b, id).value));
        }
      }
      SameLookups(r.value, s.value);
    }
  }

  lemma SameLookups(a: Values, b: Values)
    requires forall id :: Lookup(a, id) == Lookup(b, id)
    ensures a == b
  {
    forall id ensures (id in a <==> id in b) && (id in a ==> a[id] == b[id]) {
      assert Lookup(a, id) == Lookup(b, id);
    }
  }

  // The default a projection gives a setting.
  function DefaultOf(specs: seq<Spec>, id: string): Option<Setting> {
    if specs == [] then None
    else
      var last := specs[|specs| - 1];
      var value := DefaultValue(last);
      if last.id == id && value.Ok? && value.value.Some? then value.value
      else DefaultOf(specs[..|specs| - 1], id)
  }

  lemma {:induction false} DefaultsMean(specs: seq<Spec>, id: string)
    ensures Defaults(specs).Ok? <==> forall i :: 0 <= i < |specs| ==> DefaultValue(specs[i]).Ok?
    ensures Defaults(specs).Ok? ==> Lookup(Defaults(specs).value, id) == DefaultOf(specs, id)
    decreases |specs|
  {
    if specs != [] {
      var before := specs[..|specs| - 1];
      DefaultsMean(before, id);
      assert forall i :: 0 <= i < |before| ==> before[i] == specs[i];
      hide DefaultValue;
      if forall i :: 0 <= i < |specs| ==> DefaultValue(specs[i]).Ok? {
        assert DefaultValue(specs[|specs| - 1]).Ok?;
        forall i | 0 <= i < |before| ensures DefaultValue(before[i]).Ok? {
          assert DefaultValue(specs[i]).Ok?;
        }
      }
    }
  }

  // A load that succeeds gives every setting its command value, else its file value, else its
  // default; every entry was accepted on its own, secrets come from the file alone, and no
  // required setting is without a value.
  lemma CommandBeforeFileBeforeDefault(p: Projection, file: Layer, command: Layer, id: string)
    requires Load(p, file, command).Ok?
    ensures var values := Load(p, file, command).value;
            Lookup(values, id)
              == OrElse(EntryValue(command.entries, id),
                        OrElse(EntryValue(file.entries, id), DefaultOf(p.settings, id)))
            && Accepted(p.settings, file.entries, true) && Accepted(p.settings, command.entries, false)
            && forall i :: 0 <= i < |p.settings| && p.settings[i].mode == Required ==> p.settings[i].id in values
  {
    var defaults := Defaults(p.settings).value;
    var first := ApplyLayer(p.settings, file.entries, defaults, true).value;
    DefaultsMean(p.settings, id);
    LayerMeans(p.settings, file.entries, defaults, true, id);
    LayerMeans(p.settings, command.entries, first, false, id);
    hide Defaults, ApplyLayer, ValidProjection, Accepted, EntryValue, DefaultOf;
  }

  // No command line can set a secret.
  lemma SecretsComeFromTheFile(p: Projection, file: Layer, command: Layer, id: string)
    requires Load(p, file, command).Ok? && id in Load(p, file, command).value
    requires Load(p, file, command).value[id].SecretValue?
    ensures Entry(id, Load(p, file, command).value[id]) in file.entries
  {
    CommandBeforeFileBeforeDefault(p, file, command, id);
    var value := Load(p, file, command).value[id];
    hide Load;
    if EntryValue(command.entries, id).Some? {
      EntryValueFrom(command.entries, id);
      NoSecretEntry(p.settings, command.entries, Entry(id, EntryValue(command.entries, id).value));
    } else if EntryValue(file.entries, id).Some? {
      EntryValueFrom(file.entries, id);
    } else {
      NoSecretDefault(p.settings, id);
    }
  }

  lemma NoSecretEntry(specs: seq<Spec>, entries: seq<Entry>, e: Entry)
    requires Accepted(specs, entries, false) && e in entries
    ensures !e.value.SecretValue?
  {
    assert EntryError(specs, e, false).None?;
  }

  lemma {:induction false} NoSecretDefault(specs: seq<Spec>, id: string)
    ensures DefaultOf(specs, id).Some? ==> !DefaultOf(specs, id).value.SecretValue?
    decreases |specs|
  {
    if specs != [] { NoSecretDefault(specs[..|specs| - 1], id); }
  }

  // Some specification of that name accepts the value.
  predicate IsValid(specs: seq<Spec>, id: string, value: Setting) {
    exists i :: 0 <= i < |specs| && specs[i].id == id && Validate(specs[i], value).None?
  }

  lemma EntryIsValid(specs: seq<Spec>, entries: seq<Entry>, permitsSecrets: bool, e: Entry)
    requires Accepted(specs, entries, permitsSecrets) && e in entries
    ensures IsValid(specs, e.id, e.value)
  {
    assert EntryError(specs, e, permitsSecrets).None?;
    var spec := Find(specs, e.id).value;
    hide Validate, Find;
    var i :| 0 <= i < |specs| && specs[i] == spec;
  }

  lemma {:induction false} DefaultIsValid(specs: seq<Spec>, id: string)
    requires DefaultOf(specs, id).Some?
    ensures IsValid(specs, id, DefaultOf(specs, id).value)
    decreases |specs|
  {
    var (before, last) := (specs[..|specs| - 1], specs[|specs| - 1]);
    if last.id == id && DefaultValue(last).Ok? && DefaultValue(last).value.Some? {
      assert Validate(last, DefaultValue(last).value.value).None?;
    } else {
      DefaultIsValid(before, id);
      var i :| 0 <= i < |before| && before[i].id == id && Validate(before[i], DefaultOf(before, id).value).None?;
      assert specs[i] == before[i];
    }
  }

  // Every value a load yields was accepted by a specification of its setting.
  lemma LoadedIsValid(p: Projection, file: Layer, command: Layer, id: string)
    requires Load(p, file, command).Ok? && id in Load(p, file, command).value
    ensures IsValid(p.settings, id, Load(p, file, command).value[id])
  {
    CommandBeforeFileBeforeDefault(p, file, command, id);
    var value := Load(p, file, command).value[id];
    hide Load, Accepted, EntryValue, DefaultOf, IsValid;
    if EntryValue(command.entries, id).Some? {
      EntryValueFrom(command.entries, id);
      EntryIsValid(p.settings, command.entries, false, Entry(id, value));
    } else if EntryValue(file.entries, id).Some? {
      EntryValueFrom(file.entries, id);
      EntryIsValid(p.settings, file.entries, true, Entry(id, value));
    } else {
      DefaultIsValid(p.settings, id);
    }
  }

  // A layer blames the projection only when some entry does.
  lemma {:induction false} LayerNeverBlames(specs: seq<Spec>, entries: seq<Entry>, values: Values, permitsSecrets: bool)
    requires forall e :: e in entries ==> EntryError(specs, e, permitsSecrets) != Some(InvalidProjection)
    ensures ApplyLayer(specs, entries, values, permitsSecrets) != Err(InvalidProjection)
    decreases |entries|
  {
    hide EntryError, HasEntry;
    if entries != [] { LayerNeverBlames(specs, entries[..|entries| - 1], values, permitsSecrets); }
  }

  lemma {:induction false} DefaultsBlame(specs: seq<Spec>)
    requires forall i :: 0 <= i < |specs|
              ==> DefaultValue(specs[i]).Ok? || DefaultValue(specs[i]) == Err(InvalidProjection)
    ensures Defaults(specs).Ok? || Defaults(specs) == Err(InvalidProjection)
    decreases |specs|
  {
    hide DefaultValue;
    if specs != [] {
      var before := specs[..|specs| - 1];
      forall i | 0 <= i < |before|
        ensures DefaultValue(before[i]).Ok? || DefaultValue(before[i]) == Err(InvalidProjection)
      {
        assert before[i] == specs[i];
      }
      DefaultsBlame(before);
      assert DefaultValue(specs[|specs| - 1]).Ok? || DefaultValue(specs[|specs| - 1]) == Err(InvalidProjection);
    }
  }
}
