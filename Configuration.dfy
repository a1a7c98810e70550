/**
 * Configuration-tree flattening of ConfigurationExtensions.cs. A section is
 * a key, an optional string value and an ordered list of child sections.
 * GetConfigItem(section) turns the children into a list, when the first
 * child's key is "0", or into a dictionary otherwise; a child with a value
 * contributes that value, classified by ParseConfigValue (bool, then long,
 * then double, then string), and a child without one contributes its own
 * flattening, unless that is null.
 */
module Configuration {
  import opened Wrappers
  import opened Primitives

  /** IConfigurationSection: Key, Value (null when absent) and GetChildren(). */
  datatype Section = Section(key: string, value: Option<string>, children: seq<Section>)

  /** IConfiguration: GetSection(key) always returns a section, possibly an empty one. */
  datatype Configuration = Configuration(getSection: string -> Section)

  /**
   * The objects GetConfigItem builds. A double is kept as the text it was
   * parsed from; its floating-point value is not modelled.
   */
  datatype ConfigValue =
    | Bool(b: bool)
    | Long(n: Int64)
    | Double(text: string)
    | Text(s: string)
    | List(items: seq<ConfigValue>)
    | Dict(entries: map<string, ConfigValue>)

  /** bool.TryParse, long.TryParse and double.TryParse, whose definitions are not part of this model. */
  datatype Parsers = Parsers(
    tryBool: string -> Option<bool>,
    tryLong: string -> Option<Int64>,
    tryDouble: string -> bool)

  /** The exceptions these operations raise. */
  datatype ConfigError =
    | ArgumentNull(paramName: string)   // ArgumentNullException(nameof(...))
    | DuplicateKey(key: string)         // ArgumentException from Dictionary.Add

  /** What GetConfigItem<T> does with the text it obtained. */
  datatype TypedItem =
    | DefaultValue            // return default
    | ConvertText(text: string) // CanConvertTo / Enum.Parse / JsonToObject, not part of this model

  /** char.IsWhiteSpace: the Unicode White_Space characters. */
  predicate IsWhiteSpace(c: char)
  {
    var n := c as int;
    (0x09 <= n <= 0x0D) || n == 0x20 || n == 0x85 || n == 0xA0 || n == 0x1680 ||
    (0x2000 <= n <= 0x200A) || n == 0x2028 || n == 0x2029 || n == 0x202F || n == 0x205F || n == 0x3000
  }

  /** string.IsNullOrWhiteSpace */
  predicate IsNullOrWhiteSpace(s: Option<string>)
  {
    s.None? || forall i :: 0 <= i < |s.value| ==> IsWhiteSpace(s.value[i])
  }

  /** string.IsNullOrEmpty */
  predicate IsNullOrEmpty(s: Option<string>)
  {
    s.None? || |s.value| == 0
  }

  /** ParseConfigValue: bool first, then long, then double, else the text itself. */
  function ParseConfigValue(value: string, p: Parsers): (r: ConfigValue)
    ensures r.Bool? <==> p.tryBool(value).Some?
    ensures r.Long? <==> p.tryBool(value).None? && p.tryLong(value).Some?
    ensures r.Double? <==> p.tryBool(value).None? && p.tryLong(value).None? && p.tryDouble(value)
    ensures r.Text? <==> p.tryBool(value).None? && p.tryLong(value).None? && !p.tryDouble(value)
    ensures r.Bool? ==> r.b == p.tryBool(value).value
    ensures r.Long? ==> r.n == p.tryLong(value).value
    ensures r.Double? || r.Text? ==> r == Double(value) || r == Text(value)
    ensures !r.List? && !r.Dict?
  {
    match p.tryBool(value)
    case Some(b) => Bool(b)
    case None =>
      match p.tryLong(value)
      case Some(n) => Long(n)
      case None => if p.tryDouble(value) then Double(value) else Text(value)
  }

  /** The two collections GetConfigItem fills: propertyDic and objects. */
  datatype Collected = Collected(propertyDic: map<string, ConfigValue>, objects: seq<ConfigValue>)

  /** propertyDic.Add(key, v) or objects.Add(v). */
  function Add(acc: Collected, key: string, v: ConfigValue, isArray: bool): Result<Collected, ConfigError>
  {
    if isArray then Ok(acc.(objects := acc.objects + [v]))
    else if key in acc.propertyDic then Err(DuplicateKey(key))
    else Ok(acc.(propertyDic := acc.propertyDic[key := v]))
  }

  /** The value one child contributes (None: the child is skipped). */
  function ChildValue(c: Section, p: Parsers): Result<Option<ConfigValue>, ConfigError>
    decreases c, 2
  {
    if !IsNullOrWhiteSpace(c.value) then Ok(Some(ParseConfigValue(c.value.value, p)))
    else Flatten(c, p)
  }

  /** The collections after the first n children of parent. */
  function Collect(parent: Section, n: nat, isArray: bool, p: Parsers): Result<Collected, ConfigError>
    requires n <= |parent.children|
    decreases parent, 0, n
  {
    if n == 0 then Ok(Collected(map[], []))
    else
      match Collect(parent, n - 1, isArray, p)
      case Err(e) => Err(e)
      case Ok(acc) =>
        var c := parent.children[n - 1];
        match ChildValue(c, p)
        case Err(e) => Err(e)
        case Ok(None) => Ok(acc)
        case Ok(Some(v)) => Add(acc, c.key, v, isArray)
  }

  /** Whether the children are read as a list: the first child's key is "0". */
  predicate IsArray(s: Section)
    requires |s.children| > 0
  {
    s.children[0].key == "0"
  }

  /** What GetConfigItem(section) returns (None: null) or throws, for a non-null section. */
  function Flatten(s: Section, p: Parsers): Result<Option<ConfigValue>, ConfigError>
    decreases s, 1
  {
    if |s.children| == 0 then Ok(None)
    else
      match Collect(s, |s.children|, IsArray(s), p)
      case Err(e) => Err(e)
      case Ok(acc) => Ok(Some(if IsArray(s) then List(acc.objects) else Dict(acc.propertyDic)))
  }

  /** The decreasing measure of GetConfigItem's recursion. */
  function Rank(section: Option<Section>): Section
  {
    match section
    case Some(s) => s
    case None => Section([], None, [])
  }

  /** GetConfigItem(section): the null check, then the foreach loop over the children, recursing on subsections. */
  method GetConfigItem(configSection: Option<Section>, p: Parsers)
    returns (r: Result<Option<ConfigValue>, ConfigError>)
    ensures configSection.None? ==> r == Err(ArgumentNull("configSection"))
    ensures configSection.Some? ==> r == Flatten(configSection.value, p)
    decreases Rank(configSection)
  {
    if configSection.None? {
      return Err(ArgumentNull("configSection"));
    }
    var section := configSection.value;
    var sectionItems := section.children;
    if |sectionItems| == 0 {
      return Ok(None);
    }
    var propertyDic: map<string, ConfigValue> := map[];
    var objects: seq<ConfigValue> := [];
    var isArray := sectionItems[0].key == "0";
    var i := 0;
    while i < |sectionItems|
      invariant 0 <= i <= |sectionItems|
      invariant Collect(section, i, isArray, p) == Ok(Collected(propertyDic, objects))
    {
      var sectionItem := sectionItems[i];
      var actualValue: ConfigValue;
      if !IsNullOrWhiteSpace(sectionItem.value) {
        actualValue := ParseConfigValue(sectionItem.value.value, p);
      } else {
        var value := GetConfigItem(Some(sectionItem), p);
        if value.Err? {
          CollectErrorPropagates(section, i + 1, |sectionItems|, isArray, p);
          return Err(value.error);
        }
        if value.value.None? {
          i := i + 1;
          continue;
        }
        actualValue := value.value.value;
      }
      if !isArray {
        if sectionItem.key in propertyDic {
          CollectErrorPropagates(section, i + 1, |sectionItems|, isArray, p);
          return Err(DuplicateKey(sectionItem.key));
        }
        propertyDic := propertyDic[sectionItem.key := actualValue];
      } else {
        objects := objects + [actualValue];
      }
      i := i + 1;
    }
    r := Ok(Some(if isArray then List(objects) else Dict(propertyDic)));
  }

  /** An exception after n children is the exception of the whole loop. */
  lemma {:induction false} CollectErrorPropagates(parent: Section, n: nat, m: nat, isArray: bool, p: Parsers)
    requires n <= m <= |parent.children| && Collect(parent, n, isArray, p).Err?
    ensures Collect(parent, m, isArray, p) == Collect(parent, n, isArray, p)
    decreases m - n
  {
    if n < m {
      CollectErrorPropagates(parent, n, m - 1, isArray, p);
    }
  }

  /** GetConfigItemToString(section): the JSON text of GetConfigItem(section), or null. */
  function SectionToString(configSection: Option<Section>, p: Parsers, toJson: ConfigValue -> string)
    : (r: Result<Option<string>, ConfigError>)
    ensures configSection.None? ==> r == Err(ArgumentNull("configSection"))
    ensures configSection.Some? && |configSection.value.children| == 0 ==> r == Ok(None)
    ensures configSection.Some? ==> (r.Err? <==> Flatten(configSection.value, p).Err?)
    ensures configSection.Some? && Flatten(configSection.value, p).Err? ==> r == Err(Flatten(configSection.value, p).error)
    ensures configSection.Some? && Flatten(configSection.value, p).Ok? && Flatten(configSection.value, p).value.Some? ==>
              r == Ok(Some(toJson(Flatten(configSection.value, p).value.value)))
    ensures r.Ok? && r.value.Some? ==>
              configSection.Some? && |configSection.value.children| > 0 &&
              Flatten(configSection.value, p).Ok? && Flatten(configSection.value, p).value.Some? &&
              r.value.value == toJson(Flatten(configSection.value, p).value.value)
  {
    match configSection
    case None => Err(ArgumentNull("configSection"))
    case Some(s) =>
      match Flatten(s, p)
      case Err(e) => Err(e)
      case Ok(None) => Ok(None)
      case Ok(Some(v)) => Ok(Some(toJson(v)))
  }

  /** GetConfigItemToString(configuration, key): a non-blank value verbatim, else the section's JSON text. */
  function GetConfigItemToString(configuration: Option<Configuration>, key: Option<string>,
                                 p: Parsers, toJson: ConfigValue -> string)
    : (r: Result<Option<string>, ConfigError>)
    ensures configuration.None? ==> r == Err(ArgumentNull("configuration"))
    ensures configuration.Some? && key.None? ==> r == Err(ArgumentNull("key"))
    ensures configuration.Some? && key.Some? ==>
              var s := configuration.value.getSection(key.value);
              if !IsNullOrWhiteSpace(s.value) then r == Ok(s.value) else r == SectionToString(Some(s), p, toJson)
  {
    if configuration.None? then Err(ArgumentNull("configuration"))
    else if key.None? then Err(ArgumentNull("key"))
    else
      var configSection := configuration.value.getSection(key.value);
      if !IsNullOrWhiteSpace(configSection.value) then Ok(configSection.value)
      else SectionToString(Some(configSection), p, toJson)
  }

  /** GetConfigItem<T>(section), up to the typed conversion: default for a null or empty text. */
  function GetConfigItemTyped(configSection: Option<Section>, p: Parsers, toJson: ConfigValue -> string)
    : (r: Result<TypedItem, ConfigError>)
    ensures configSection.None? ==> r == Err(ArgumentNull("configSection"))
    ensures r == Ok(DefaultValue) <==>
              SectionToString(configSection, p, toJson).Ok? && IsNullOrEmpty(SectionToString(configSection, p, toJson).value)
    ensures r.Ok? && r.value.ConvertText? ==>
              |r.value.text| > 0 && SectionToString(configSection, p, toJson) == Ok(Some(r.value.text))
    ensures SectionToString(configSection, p, toJson).Ok? && !IsNullOrEmpty(SectionToString(configSection, p, toJson).value) ==>
              r == Ok(ConvertText(SectionToString(configSection, p, toJson).value.value))
    ensures SectionToString(configSection, p, toJson).Err? ==> r == Err(SectionToString(configSection, p, toJson).error)
  {
    if configSection.None? then Err(ArgumentNull("configSection"))
    else
      match SectionToString(configSection, p, toJson)
      case Err(e) => Err(e)
      case Ok(value) => if IsNullOrEmpty(value) then Ok(DefaultValue) else Ok(ConvertText(value.value))
  }

  /** GetConfigItem<T>(configuration, key): the null checks, then GetConfigItem<T> on the section. */
  function GetConfigItemByKey(configuration: Option<Configuration>, key: Option<string>,
                              p: Parsers, toJson: ConfigValue -> string)
    : (r: Result<TypedItem, ConfigError>)
    ensures configuration.None? ==> r == Err(ArgumentNull("configuration"))
    ensures configuration.Some? && key.None? ==> r == Err(ArgumentNull("key"))
    ensures configuration.Some? && key.Some? ==>
              r == GetConfigItemTyped(Some(configuration.value.getSection(key.value)), p, toJson)
  {
    if configuration.None? then Err(ArgumentNull("configuration"))
    else if key.None? then Err(ArgumentNull("key"))
    else GetConfigItemTyped(Some(configuration.value.getSection(key.value)), p, toJson)
  }

  // ---------------------------------------------------------------------------
  // Properties of the flattening
  // ---------------------------------------------------------------------------

  /** A section without children gives null; one with children gives a list exactly when the first key is "0". */
  lemma FlattenShape(s: Section, p: Parsers)
    ensures |s.children| == 0 <==> Flatten(s, p) == Ok(None)
    ensures |s.children| > 0 && Flatten(s, p).Ok? ==>
              Flatten(s, p).value.Some? &&
              (Flatten(s, p).value.value.List? <==> s.children[0].key == "0") &&
              (Flatten(s, p).value.value.Dict? <==> s.children[0].key != "0")
  {
  }

  /** The collections only grow: every step keeps what the earlier children contributed. */
  lemma {:induction false} CollectMonotone(parent: Section, n: nat, m: nat, isArray: bool, p: Parsers)
    requires n <= m <= |parent.children| && Collect(parent, m, isArray, p).Ok?
    ensures Collect(parent, n, isArray, p).Ok?
    ensures var small := Collect(parent, n, isArray, p).value;
            var big := Collect(parent, m, isArray, p).value;
            small.objects <= big.objects &&
            (forall k :: k in small.propertyDic ==> k in big.propertyDic && big.propertyDic[k] == small.propertyDic[k])
    decreases m - n
  {
    if n < m {
      CollectMonotone(parent, n, m - 1, isArray, p);
    }
  }

  /**
   * Every included child is in the dictionary under its key, with its value;
   * a child with a non-blank value is always included, as ParseConfigValue of it.
   */
  lemma DictHasEveryIncludedChild(s: Section, p: Parsers, i: nat)
    requires i < |s.children| && !IsArray(s)
    requires Flatten(s, p).Ok?
    requires ChildValue(s.children[i], p).Ok? && ChildValue(s.children[i], p).value.Some?
    ensures var d := Flatten(s, p).value.value.entries;
            s.children[i].key in d && d[s.children[i].key] == ChildValue(s.children[i], p).value.value
    ensures !IsNullOrWhiteSpace(s.children[i].value) ==>
              ChildValue(s.children[i], p).value.value == ParseConfigValue(s.children[i].value.value, p)
  {
    var n := |s.children|;
    CollectMonotone(s, i + 1, n, false, p);
  }

  /** In dictionary mode two included children with the same key make Dictionary.Add raise. */
  lemma DuplicateKeyRaises(s: Section, p: Parsers, i: nat, j: nat)
    requires i < j < |s.children| && !IsArray(s)
    requires s.children[i].key == s.children[j].key
    requires ChildValue(s.children[i], p).Ok? && ChildValue(s.children[i], p).value.Some?
    requires ChildValue(s.children[j], p).Ok? && ChildValue(s.children[j], p).value.Some?
    ensures Flatten(s, p).Err?
    ensures Collect(s, j, false, p).Ok? ==> Flatten(s, p) == Err(DuplicateKey(s.children[j].key))
  {
    var n := |s.children|;
    if Collect(s, j, false, p).Err? {
      CollectErrorPropagates(s, j, n, false, p);
    } else {
      CollectMonotone(s, i + 1, j, false, p);
      assert s.children[i].key in Collect(s, i + 1, false, p).value.propertyDic;
      assert Collect(s, j + 1, false, p) == Err(DuplicateKey(s.children[j].key));
      CollectErrorPropagates(s, j + 1, n, false, p);
    }
  }

  /** Every key of the dictionary is the key of an included child. */
  lemma {:induction false} DictKeysAreChildKeys(s: Section, n: nat, p: Parsers, k: string)
    requires n <= |s.children| && Collect(s, n, false, p).Ok?
    requires k in Collect(s, n, false, p).value.propertyDic
    ensures exists i :: 0 <= i < n && s.children[i].key == k &&
              ChildValue(s.children[i], p) == Ok(Some(Collect(s, n, false, p).value.propertyDic[k]))
    decreases n
  {
    var acc := Collect(s, n - 1, false, p).value;
    var c := s.children[n - 1];
    if k in acc.propertyDic {
      DictKeysAreChildKeys(s, n - 1, p, k);
      var i :| 0 <= i < n - 1 && s.children[i].key == k &&
               ChildValue(s.children[i], p) == Ok(Some(acc.propertyDic[k]));
      assert Collect(s, n, false, p).value.propertyDic[k] == acc.propertyDic[k];
    } else {
      assert c.key == k;
    }
  }

  /** Two sections whose children agree in everything but their keys. */
  predicate SameButKeys(a: seq<Section>, b: seq<Section>)
  {
    |a| == |b| && forall i :: 0 <= i < |a| ==> a[i].value == b[i].value && a[i].children == b[i].children
  }

  /** The flattening of a section never looks at the section's own key. */
  lemma {:induction false} CollectIgnoresOwnKey(s: Section, t: Section, n: nat, isArray: bool, p: Parsers)
    requires s.children == t.children && n <= |s.children|
    ensures Collect(s, n, isArray, p) == Collect(t, n, isArray, p)
    decreases n
  {
    if n > 0 {
      CollectIgnoresOwnKey(s, t, n - 1, isArray, p);
    }
  }

  /** In list mode only the first child's key is consulted: the other keys can be anything. */
  lemma {:induction false} ListModeIgnoresKeys(s: Section, t: Section, n: nat, p: Parsers)
    requires SameButKeys(s.children, t.children) && n <= |s.children|
    ensures Collect(s, n, true, p) == Collect(t, n, true, p)
    decreases n
  {
    if n > 0 {
      ListModeIgnoresKeys(s, t, n - 1, p);
      var a := s.children[n - 1];
      var b := t.children[n - 1];
      if IsNullOrWhiteSpace(a.value) && |a.children| > 0 {
        CollectIgnoresOwnKey(a, b, |a.children|, IsArray(a), p);
      }
      assert ChildValue(a, p) == ChildValue(b, p);
    }
  }

  /** The list holds the included children's values in the children's order. */
  lemma {:induction false} ListInOrder(s: Section, n: nat, p: Parsers)
    requires n <= |s.children| && Collect(s, n, true, p).Ok?
    ensures Collect(s, n, true, p).value.objects == IncludedValues(s.children[..n], p)
    decreases n
  {
    if n > 0 {
      ListInOrder(s, n - 1, p);
      assert s.children[..n][..n - 1] == s.children[..n - 1];
    }
  }

  /** The values of the included children, in order, as an independent reference for the list. */
  function IncludedValues(cs: seq<Section>, p: Parsers): seq<ConfigValue>
    decreases cs, |cs|
  {
    if |cs| == 0 then []
    else
      var front := IncludedValues(cs[..|cs| - 1], p);
      match ChildValue(cs[|cs| - 1], p)
      case Ok(Some(v)) => front + [v]
      case _ => front
  }

  /** A section without children makes GetConfigItem<T> return default. */
  lemma TypedDefaultWithoutChildren(s: Section, p: Parsers, toJson: ConfigValue -> string)
    requires |s.children| == 0
    ensures GetConfigItemTyped(Some(s), p, toJson) == Ok(DefaultValue)
  {
  }

  /**
   * As written, GetConfigItem<T> never reads a section's own value: a leaf
   * with value "5" gives default, while GetConfigItemToString on the same
   * key gives "5".
   */
  lemma TypedIgnoresLeafValue(p: Parsers, toJson: ConfigValue -> string)
    ensures var leaf := Section("Port", Some("5"), []);
            var config := Configuration(k => leaf);
            GetConfigItemByKey(Some(config), Some("Port"), p, toJson) == Ok(DefaultValue) &&
            GetConfigItemToString(Some(config), Some("Port"), p, toJson) == Ok(Some("5"))
  {
    var leaf := Section("Port", Some("5"), []);
    assert !IsWhiteSpace(leaf.value.value[0]);
  }

  /** GetConfigItem<T>(section) with the section's own value read first, as GetConfigItemToString(configuration, key) does. */
  function GetConfigItemTypedCorrected(configSection: Option<Section>, p: Parsers, toJson: ConfigValue -> string)
    : Result<TypedItem, ConfigError>
  {
    if configSection.None? then Err(ArgumentNull("configSection"))
    else if !IsNullOrWhiteSpace(configSection.value.value) then Ok(ConvertText(configSection.value.value.value))
    else GetConfigItemTyped(configSection, p, toJson)
  }

  /** The corrected reading converts a leaf's value, and agrees with GetConfigItemToString on every key. */
  lemma CorrectedReadsLeafValue(config: Configuration, key: string, p: Parsers, toJson: ConfigValue -> string)
    ensures var s := config.getSection(key);
            (!IsNullOrWhiteSpace(s.value) ==> GetConfigItemTypedCorrected(Some(s), p, toJson) == Ok(ConvertText(s.value.value))) &&
            match GetConfigItemToString(Some(config), Some(key), p, toJson)
            case Err(e) => GetConfigItemTypedCorrected(Some(s), p, toJson) == Err(e)
            case Ok(text) =>
              GetConfigItemTypedCorrected(Some(s), p, toJson)
                == Ok(if IsNullOrEmpty(text) then DefaultValue else ConvertText(text.value))
  {
  }
}
