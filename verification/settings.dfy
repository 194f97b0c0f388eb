/** The settings service of the frontend: the settings record, its default
    value, the structural validator over a parsed JSON value, and the
    import, load and reset paths built on it. `JSON.parse`, `JSON.stringify`
    and the browser's local storage are parameters. */
module SettingsService {
  import opened Wrappers

  datatype RuleType = Extension | Filename | Path

  datatype CategoryRule = CategoryRule(id: string, name: string, pattern: string, category: string, ruleType: RuleType)

  datatype SettingsData = SettingsData(defaultScanPath: string, categoryRules: seq<CategoryRule>)

  /** A value as `JSON.parse` produces it. An object maps each key to its
      (last) value. */
  datatype Json =
    | JNull
    | JBool(b: bool)
    | JNumber(n: real)
    | JString(s: string)
    | JArray(items: seq<Json>)
    | JObject(fields: map<string, Json>)

  /** The only exception the validator can raise: reading a property of `null`. */
  datatype Thrown = TypeError

  const STORAGE_KEY: string := "duplicateRemoverSettings"
  const IMPORT_ERROR: string := "Invalid settings file format"

  function RuleTypeName(t: RuleType): string
  {
    match t
    case Extension => "extension"
    case Filename => "filename"
    case Path => "path"
  }

  /** `['extension', 'filename', 'path'].includes(name)`, with the matching type. */
  function ParseRuleType(name: string): (r: Option<RuleType>)
    ensures r.Some? ==> RuleTypeName(r.value) == name
    ensures forall t :: RuleTypeName(t) == name ==> r == Some(t)
  {
    if name == "extension" then Some(Extension)
    else if name == "filename" then Some(Filename)
    else if name == "path" then Some(Path)
    else None
  }

  /** JavaScript's `typeof` on a parsed value; `typeof null` is "object". */
  function TypeOf(v: Json): string
  {
    match v
    case JNull => "object"
    case JBool(_) => "boolean"
    case JNumber(_) => "number"
    case JString(_) => "string"
    case JArray(_) => "object"
    case JObject(_) => "object"
  }

  /** `v[key]` for the keys the validator reads: `undefined` (None) unless
      `v` is an object holding the key; a `TypeError` on `null`. */
  function Property(v: Json, key: string): (r: Result<Option<Json>, Thrown>)
    ensures r.Err? <==> v.JNull?
    ensures r == Ok(None) <==> !v.JNull? && !(v.JObject? && key in v.fields)
  {
    match v
    case JNull => Err(TypeError)
    case JObject(fields) => Ok(if key in fields then Some(fields[key]) else None)
    case _ => Ok(None)
  }

  predicate IsString(p: Option<Json>) { p.Some? && p.value.JString? }

  /** The test applied to one rule by `every`, evaluated left to right. */
  function CheckRule(rule: Json): (r: Result<bool, Thrown>)
    ensures r == Ok(true) <==> WellFormedRule(rule)
    ensures r.Err? <==> rule.JNull?
  {
    if TypeOf(rule) != "object" then Ok(false)
    else if rule.JNull? then Err(TypeError)
    else
      var get := (key: string) => Property(rule, key).value;
      Ok(IsString(get("id")) && IsString(get("name")) && IsString(get("pattern")) && IsString(get("category"))
         && IsString(get("type")) && ParseRuleType(get("type").value.s).Some?)
  }

  /** `rules.every(check)`: stops at the first rule that fails or throws. */
  function EveryRule(rules: seq<Json>): (r: Result<bool, Thrown>)
    ensures r.Err? ==> JNull in rules
    ensures r == Ok(true) ==> forall i :: 0 <= i < |rules| ==> rules[i].JObject?
    decreases |rules|
  {
    if rules == [] then Ok(true)
    else
      match CheckRule(rules[0])
      case Err(e) => Err(e)
      case Ok(ok) => if ok then EveryRule(rules[1..]) else Ok(false)
  }

  /** `validateSettings`: evaluated in the order of the source, so that a
      `null` value or a `null` rule throws instead of answering false. */
  function ValidateSettings(settings: Json): (r: Result<bool, Thrown>)
    ensures settings.JNull? ==> r.Err?
    ensures !settings.JObject? && !settings.JNull? ==> r == Ok(false)
  {
    if TypeOf(settings) != "object" then Ok(false)
    else
      match Property(settings, "defaultScanPath")
      case Err(e) => Err(e)
      case Ok(path) =>
        if !IsString(path) then Ok(false)
        else
          match Property(settings, "categoryRules")
          case Err(e) => Err(e)
          case Ok(rules) =>
            if !(rules.Some? && rules.value.JArray?) then Ok(false)
            else EveryRule(rules.value.items)
  }

  predicate StringField(fields: map<string, Json>, key: string)
  {
    key in fields && fields[key].JString?
  }

  /** The shape of a `CategoryRule`: an object with string id, name, pattern
      and category, and one of the three type names. */
  predicate WellFormedRule(rule: Json)
  {
    rule.JObject? && StringField(rule.fields, "id") && StringField(rule.fields, "name")
    && StringField(rule.fields, "pattern") && StringField(rule.fields, "category")
    && StringField(rule.fields, "type") && ParseRuleType(rule.fields["type"].s).Some?
  }

  /** The shape of a `SettingsData`: an object with a string path and an
      array of well-formed rules (other keys are allowed). */
  predicate WellFormed(v: Json)
  {
    v.JObject? && StringField(v.fields, "defaultScanPath")
    && "categoryRules" in v.fields && v.fields["categoryRules"].JArray?
    && forall i :: 0 <= i < |v.fields["categoryRules"].items| ==> WellFormedRule(v.fields["categoryRules"].items[i])
  }

  /** `every` answers true exactly when all rules are well formed. */
  lemma {:induction false} EveryRuleAccepts(rules: seq<Json>)
    ensures EveryRule(rules) == Ok(true) <==> forall i :: 0 <= i < |rules| ==> WellFormedRule(rules[i])
    decreases |rules|
  {
    if rules != [] {
      EveryRuleAccepts(rules[1..]);
      assert forall i :: 1 <= i < |rules| ==> rules[i] == rules[1..][i - 1];
    }
  }

  /** Rule `i` is `null` and every rule before it is well formed. */
  predicate ThrowsAt(rules: seq<Json>, i: int)
  {
    0 <= i < |rules| && rules[i].JNull? && forall j :: 0 <= j < i ==> WellFormedRule(rules[j])
  }

  /** `every` throws exactly when a `null` rule comes before any malformed one. */
  lemma {:induction false} EveryRuleThrows(rules: seq<Json>)
    ensures EveryRule(rules).Err? <==> exists i :: ThrowsAt(rules, i)
    decreases |rules|
  {
    if rules == [] {
    } else if rules[0].JNull? {
      assert ThrowsAt(rules, 0);
    } else if !WellFormedRule(rules[0]) {
      forall i | 0 < i < |rules| ensures !ThrowsAt(rules, i) {
        assert 0 <= 0 < i && !WellFormedRule(rules[0]);
      }
    } else {
      EveryRuleThrows(rules[1..]);
      forall i | ThrowsAt(rules, i) ensures ThrowsAt(rules[1..], i - 1) {
        assert i != 0;
        forall j | 0 <= j < i - 1 ensures WellFormedRule(rules[1..][j]) {
          assert rules[1..][j] == rules[j + 1];
        }
      }
      forall i | ThrowsAt(rules[1..], i) ensures ThrowsAt(rules, i + 1) {
        forall j | 0 <= j < i + 1 ensures WellFormedRule(rules[j]) {
          if j > 0 {
            assert rules[j] == rules[1..][j - 1];
          }
        }
      }
    }
  }

  /** `every` answers true exactly when all rules are well formed, and
      throws exactly when a `null` rule comes before any malformed one. */
  lemma EveryRuleMeaning(rules: seq<Json>)
    ensures EveryRule(rules) == Ok(true) <==> forall i :: 0 <= i < |rules| ==> WellFormedRule(rules[i])
    ensures EveryRule(rules).Err? <==>
      exists i :: 0 <= i < |rules| && rules[i].JNull? && forall j :: 0 <= j < i ==> WellFormedRule(rules[j])
  {
    EveryRuleAccepts(rules);
    EveryRuleThrows(rules);
    assert forall i :: ThrowsAt(rules, i) <==>
      0 <= i < |rules| && rules[i].JNull? && forall j :: 0 <= j < i ==> WellFormedRule(rules[j]);
  }

  /** The validator answers true exactly for well-formed values. */
  lemma ValidateSettingsAcceptsExactly(v: Json)
    ensures ValidateSettings(v) == Ok(true) <==> WellFormed(v)
  {
    if v.JObject? && "categoryRules" in v.fields && v.fields["categoryRules"].JArray? {
      EveryRuleMeaning(v.fields["categoryRules"].items);
    }
  }

  /** The validator throws exactly on `null`, or on a `null` rule in an
      otherwise acceptable value that no malformed rule precedes. */
  lemma ValidateSettingsThrowsExactly(v: Json)
    ensures ValidateSettings(v).Err? <==>
      v.JNull? ||
      (v.JObject? && StringField(v.fields, "defaultScanPath") && "categoryRules" in v.fields
       && v.fields["categoryRules"].JArray?
       && exists i :: 0 <= i < |v.fields["categoryRules"].items| && v.fields["categoryRules"].items[i].JNull?
            && forall j :: 0 <= j < i ==> WellFormedRule(v.fields["categoryRules"].items[j]))
  {
    if v.JObject? && "categoryRules" in v.fields && v.fields["categoryRules"].JArray? {
      EveryRuleMeaning(v.fields["categoryRules"].items);
    }
  }

  /** An empty rule list is acceptable. */
  lemma EmptyRulesAreValid(path: string)
    ensures ValidateSettings(JObject(map["defaultScanPath" := JString(path), "categoryRules" := JArray([])])) == Ok(true)
  {
  }

  /** The JSON object a rule becomes. */
  function EncodeRule(rule: CategoryRule): Json
  {
    JObject(map["id" := JString(rule.id), "name" := JString(rule.name), "pattern" := JString(rule.pattern),
                "category" := JString(rule.category), "type" := JString(RuleTypeName(rule.ruleType))])
  }

  /** The JSON object a settings record becomes. */
  function Encode(settings: SettingsData): Json
  {
    JObject(map["defaultScanPath" := JString(settings.defaultScanPath),
                "categoryRules" := JArray(seq(|settings.categoryRules|, i requires 0 <= i < |settings.categoryRules| => EncodeRule(settings.categoryRules[i])))])
  }

  /** The settings record a well-formed value describes. */
  function Decode(v: Json): SettingsData
    requires WellFormed(v)
  {
    var rules := v.fields["categoryRules"].items;
    SettingsData(v.fields["defaultScanPath"].s,
      seq(|rules|, i requires 0 <= i < |rules| && WellFormedRule(rules[i]) =>
        var f := rules[i].fields;
        CategoryRule(f["id"].s, f["name"].s, f["pattern"].s, f["category"].s, ParseRuleType(f["type"].s).value)))
  }

  /** Every settings record encodes to a well-formed value that decodes
      back to it. */
  lemma EncodeDecode(settings: SettingsData)
    ensures WellFormed(Encode(settings))
    ensures Decode(Encode(settings)) == settings
  {
    var v := Encode(settings);
    var items := v.fields["categoryRules"].items;
    forall i | 0 <= i < |items| ensures WellFormedRule(items[i]) {
      var t := settings.categoryRules[i].ruleType;
      assert ParseRuleType(RuleTypeName(t)) == Some(t);
    }
    var d := Decode(v);
    forall i | 0 <= i < |settings.categoryRules| ensures d.categoryRules[i] == settings.categoryRules[i] {
      var t := settings.categoryRules[i].ruleType;
      assert ParseRuleType(RuleTypeName(t)) == Some(t);
    }
  }

  /** `getDefaultSettings`: an empty path and seven rules with ids "1" to "7". */
  function DefaultSettings(): (r: SettingsData)
    ensures r.defaultScanPath == "" && |r.categoryRules| == 7
    ensures forall i :: 0 <= i < 7 ==> r.categoryRules[i].id == [('1' as int + i) as char]
  {
    SettingsData("", [
      CategoryRule("1", "Executable Files", "exe,msi,app", "Applications", Extension),
      CategoryRule("2", "Setup Files", "*setup*,*install*", "Installers", Filename),
      CategoryRule("3", "Document Files", "pdf,doc,docx,txt", "Documents", Extension),
      CategoryRule("4", "Image Files", "jpg,jpeg,png,gif,bmp", "Images", Extension),
      CategoryRule("5", "Video Files", "mp4,avi,mov,wmv,flv", "Videos", Extension),
      CategoryRule("6", "Audio Files", "mp3,wav,flac,aac,ogg", "Audio", Extension),
      CategoryRule("7", "Archive Files", "zip,rar,7z,tar,gz", "Archives", Extension)])
  }

  /** The defaults pass the validator. */
  lemma DefaultSettingsAreValid()
    ensures ValidateSettings(Encode(DefaultSettings())) == Ok(true)
  {
    EncodeDecode(DefaultSettings());
    ValidateSettingsAcceptsExactly(Encode(DefaultSettings()));
  }

  /** `importSettings`: the parsed value itself when it validates; the one
      error message for a parse failure, a rejected value or a throw. */
  function ImportSettings(jsonString: string, parse: string -> Option<Json>): (r: Result<Json, string>)
    ensures r.Ok? <==> parse(jsonString).Some? && WellFormed(parse(jsonString).value)
    ensures r.Ok? ==> r.value == parse(jsonString).value
    ensures r.Err? ==> r.error == IMPORT_ERROR
  {
    match parse(jsonString)
    case None => Err(IMPORT_ERROR)
    case Some(settings) =>
      ValidateSettingsAcceptsExactly(settings);
      match ValidateSettings(settings)
      case Ok(valid) => if valid then Ok(settings) else Err(IMPORT_ERROR)
      case Err(_) => Err(IMPORT_ERROR)
  }

  /** `exportSettings`: the record as JSON text. The value handed to
      `JSON.stringify` passes the validator and decodes back to the record. */
  function ExportSettings(settings: SettingsData, stringify: Json -> string): (r: string)
    ensures r == stringify(Encode(settings))
    ensures WellFormed(Encode(settings)) && Decode(Encode(settings)) == settings
  {
    EncodeDecode(settings);
    stringify(Encode(settings))
  }

  /** Importing exported settings gives them back, for any `JSON.parse`
      that reads back what `JSON.stringify` wrote. */
  lemma ImportExportRoundTrip(settings: SettingsData, parse: string -> Option<Json>, stringify: Json -> string)
    requires parse(stringify(Encode(settings))) == Some(Encode(settings))
    ensures ImportSettings(ExportSettings(settings, stringify), parse) == Ok(Encode(settings))
    ensures Decode(ImportSettings(ExportSettings(settings, stringify), parse).value) == settings
  {
    EncodeDecode(settings);
  }

  /** `loadSettings`: the parsed stored text, unchecked, when there is
      non-empty stored text that parses; the defaults otherwise. */
  function LoadSettings(saved: Option<string>, parse: string -> Option<Json>): (r: Json)
    ensures saved == None || saved == Some("") ==> r == Encode(DefaultSettings())
    ensures saved.Some? && parse(saved.value) == None ==> r == Encode(DefaultSettings())
    ensures saved.Some? && saved.value != "" && parse(saved.value).Some? ==> r == parse(saved.value).value
  {
    if saved.Some? && saved.value != "" then
      match parse(saved.value)
      case Some(v) => v
      case None => Encode(DefaultSettings())
    else Encode(DefaultSettings())
  }

  /** `saveSettings`: the store with the record's JSON under the settings key. */
  function SaveSettings(store: map<string, string>, settings: SettingsData, stringify: Json -> string): (r: map<string, string>)
    ensures r.Keys == store.Keys + {STORAGE_KEY}
    ensures r[STORAGE_KEY] == ExportSettings(settings, stringify)
    ensures forall k :: k in store && k != STORAGE_KEY ==> r[k] == store[k]
  {
    store[STORAGE_KEY := stringify(Encode(settings))]
  }

  /** `resetSettings`: the defaults, after saving them. */
  function ResetSettings(store: map<string, string>, stringify: Json -> string): (r: (SettingsData, map<string, string>))
    ensures r.0 == DefaultSettings()
    ensures r.1 == SaveSettings(store, DefaultSettings(), stringify)
  {
    var defaults := DefaultSettings();
    (defaults, SaveSettings(store, defaults, stringify))
  }

  function GetItem(store: map<string, string>, key: string): Option<string>
  {
    if key in store then Some(store[key]) else None
  }

  /** After a reset, loading gives the defaults, for any `JSON.parse` that
      reads back what `JSON.stringify` wrote. */
  lemma LoadAfterReset(store: map<string, string>, parse: string -> Option<Json>, stringify: Json -> string)
    requires parse(stringify(Encode(DefaultSettings()))) == Some(Encode(DefaultSettings()))
    ensures LoadSettings(GetItem(ResetSettings(store, stringify).1, STORAGE_KEY), parse) == Encode(DefaultSettings())
    ensures ValidateSettings(LoadSettings(GetItem(ResetSettings(store, stringify).1, STORAGE_KEY), parse)) == Ok(true)
  {
    DefaultSettingsAreValid();
  }
}
