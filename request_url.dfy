/**
 * The request URL that the API tool assembles from the user's selections
 * (src/main.rs): the platform gate, the query parameters in their fixed order
 * (platforms, then configType, then searchPackage), and the final URL.
 *
 * The prompts are not modelled; their answers are the inputs: `selected` are
 * the indices chosen from Platforms, `configIndex` the index chosen from
 * ConfigTypes, `search` the search term typed (empty when skipped).
 */
module RequestUrl {
  import opened Wrappers
  import opened PercentEncoding
  import opened QueryString

  /** The platform options, in the order the multi-select shows them. */
  const Platforms: seq<string> := ["windows", "mac", "linux"]

  /** The config type options; index 0 stands for "no config type". */
  const ConfigTypes: seq<string> := ["None", "computer", "user"]

  /** The decoded name of the array-style platform key. */
  const PlatformName: string := "platform[]"
  /** The platform key exactly as the source writes it, already encoded. */
  const PlatformKey: string := "platform%5B%5D"
  const ConfigTypeName: string := "configType"
  const SearchPackageName: string := "searchPackage"

  /** The indices the multi-select can return. */
  predicate ValidSelection(selected: seq<nat>) {
    forall i :: 0 <= i < |selected| ==> selected[i] < |Platforms|
  }

  /** The names of the selected platforms, in selection order. */
  function PlatformNames(selected: seq<nat>): (names: seq<string>)
    requires ValidSelection(selected)
    ensures |names| == |selected|
  {
    seq(|selected|, i requires 0 <= i < |selected| => Platforms[selected[i]])
  }

  function PlatformFields(selected: seq<nat>): (fs: seq<(string, string)>)
    requires ValidSelection(selected)
    ensures |fs| == |selected|
  {
    seq(|selected|, i requires 0 <= i < |selected| => (PlatformName, Platforms[selected[i]]))
  }

  /**
   * The key/value pairs the request carries, before encoding: one platform
   * pair per selected index, a configType pair unless index 0 ("None") was
   * chosen, and a searchPackage pair unless the search term is empty.
   */
  function Fields(selected: seq<nat>, configIndex: nat, search: string): seq<(string, string)>
    requires ValidSelection(selected) && configIndex < |ConfigTypes|
  {
    PlatformFields(selected) + ConfigFields(configIndex) + SearchFields(search)
  }

  function ConfigFields(configIndex: nat): seq<(string, string)>
    requires configIndex < |ConfigTypes|
  {
    if configIndex > 0 then [(ConfigTypeName, ConfigTypes[configIndex])] else []
  }

  function SearchFields(search: string): seq<(string, string)> {
    if search != [] then [(SearchPackageName, search)] else []
  }

  /** The platform parameters as the source formats them: the literal key, "=", the encoded name. */
  function PlatformParams(selected: seq<nat>): (ps: seq<string>)
    requires ValidSelection(selected)
    ensures |ps| == |selected|
  {
    KeyParams(PlatformKey, PlatformNames(selected))
  }

  /**
   * The query parameters as the source formats them: only the values go
   * through the encoder, the keys are written out literally.
   */
  function QueryParams(selected: seq<nat>, configIndex: nat, search: string): seq<string>
    requires ValidSelection(selected) && configIndex < |ConfigTypes|
  {
    PlatformParams(selected) + ConfigParams(configIndex) + SearchParams(search)
  }

  function ConfigParams(configIndex: nat): seq<string>
    requires configIndex < |ConfigTypes|
  {
    if configIndex > 0 then [ConfigTypeName + "=" + Encode(ConfigTypes[configIndex])] else []
  }

  function SearchParams(search: string): seq<string> {
    if search != [] then [SearchPackageName + "=" + Encode(search)] else []
  }

  /**
   * The URL builder of src/main.rs: push one platform parameter per selected
   * index, then the optional configType and searchPackage parameters; append
   * them after "?" joined by "&", unless there are none.
   */
  method BuildUrl(baseUrl: string, selected: seq<nat>, configIndex: nat, search: string)
    returns (url: string)
    requires ValidSelection(selected) && configIndex < |ConfigTypes|
    ensures QueryParams(selected, configIndex, search) == [] ==> url == baseUrl
    ensures QueryParams(selected, configIndex, search) != [] ==>
              url == baseUrl + "?" + Join(QueryParams(selected, configIndex, search), "&")
  {
    url := baseUrl;
    var queryParams: seq<string> := [];

    for k := 0 to |selected|
      invariant ValidSelection(selected[..k])
      invariant queryParams == PlatformParams(selected[..k])
    {
      PlatformStep(selected, k);
      queryParams := queryParams + [PlatformKey + "=" + Encode(Platforms[selected[k]])];
    }
    assert selected[..|selected|] == selected;

    if configIndex > 0 {
      queryParams := queryParams + [ConfigTypeName + "=" + Encode(ConfigTypes[configIndex])];
    }
    assert queryParams == PlatformParams(selected) + ConfigParams(configIndex);

    if search != [] {
      queryParams := queryParams + [SearchPackageName + "=" + Encode(search)];
    }
    assert queryParams == QueryParams(selected, configIndex, search);

    if queryParams != [] {
      url := url + "?" + Join(queryParams, "&");
    }
  }

  /** Visiting one more selected index appends exactly its platform parameter. */
  lemma PlatformStep(selected: seq<nat>, k: nat)
    requires ValidSelection(selected) && k < |selected|
    ensures ValidSelection(selected[..k]) && ValidSelection(selected[..k + 1])
    ensures PlatformParams(selected[..k + 1]) ==
              PlatformParams(selected[..k]) + [PlatformKey + "=" + Encode(Platforms[selected[k]])]
  {
    var before, after := selected[..k], selected[..k + 1];
    assert ValidSelection(after) && ValidSelection(before);
    assert PlatformNames(after) == PlatformNames(before) + [Platforms[selected[k]]];
    KeyParamsPush(PlatformKey, PlatformNames(before), Platforms[selected[k]]);
  }

  /** What the program does with the selections up to the summary. */
  datatype Outcome =
    | Exit(status: int)      // the process ends with this exit status
    | Prepared(url: string)  // the request URL is built and shown for confirmation

  /**
   * The platform gate followed by the builder: an empty platform selection
   * ends the program with status 1 before any URL exists; otherwise the URL
   * always carries a query, since there is at least one platform parameter.
   */
  method Run(baseUrl: string, selected: seq<nat>, configIndex: nat, search: string)
    returns (outcome: Outcome)
    requires ValidSelection(selected) && configIndex < |ConfigTypes|
    ensures selected == [] <==> outcome == Exit(1)
    ensures selected != [] ==>
              outcome == Prepared(baseUrl + "?" + Join(QueryParams(selected, configIndex, search), "&"))
  {
    if selected == [] {
      return Exit(1);
    }
    assert |QueryParams(selected, configIndex, search)| >= |selected|;
    var url := BuildUrl(baseUrl, selected, configIndex, search);
    return Prepared(url);
  }

  /** The pre-encoded literal key is exactly what the encoder makes of "platform[]". */
  lemma PlatformKeyIsEncodedName()
    ensures Encode(PlatformName) == PlatformKey
  {
    var name := "platform";
    assert forall i :: 0 <= i < |name| ==> IsUnreserved(name[i]);
    EncodeBracketed(name, PlatformName, PlatformKey);
  }

  /** An unreserved name followed by "[]" encodes to the name followed by "%5B%5D". */
  lemma EncodeBracketed(name: string, key: string, encoded: string)
    requires forall i :: 0 <= i < |name| ==> IsUnreserved(name[i])
    requires key == name + "[]" && encoded == name + "%5B%5D"
    ensures Encode(key) == encoded
  {
    EncodeAppend(name, "[]");
    EncodeUnreserved(name);
    EncodeBrackets("[]");
  }

  lemma EncodeBrackets(brackets: string)
    requires brackets == "[]"
    ensures Encode(brackets) == "%5B%5D"
  {
    assert brackets == "[" + "]";
    EncodeAppend("[", "]");
    assert EncodeByte('[' as int) == "%5B";
    assert EncodeByte(']' as int) == "%5D";
  }

  /** The fixed option names are all unreserved, so encoding leaves them unchanged. */
  lemma FixedNamesUnencoded()
    ensures forall i :: 0 <= i < |Platforms| ==> Encode(Platforms[i]) == Platforms[i]
    ensures forall i :: 0 <= i < |ConfigTypes| ==> Encode(ConfigTypes[i]) == ConfigTypes[i]
  {
    forall i | 0 <= i < |Platforms| ensures Encode(Platforms[i]) == Platforms[i] {
      EncodeOptionName(Platforms[i]);
    }
    forall i | 0 <= i < |ConfigTypes| ensures Encode(ConfigTypes[i]) == ConfigTypes[i] {
      EncodeOptionName(ConfigTypes[i]);
    }
  }

  lemma EncodeOptionName(w: string)
    requires w in Platforms || w in ConfigTypes
    ensures Encode(w) == w
  {
    EncodeUnreserved(w);
  }

  /** The other keys are unreserved too, so their encoded form is the key itself. */
  lemma ConfigTypeNameUnencoded()
    ensures Encode(ConfigTypeName) == ConfigTypeName
  {
    EncodeUnreserved(ConfigTypeName);
  }

  lemma SearchPackageNameUnencoded()
    ensures Encode(SearchPackageName) == SearchPackageName
  {
    EncodeUnreserved(SearchPackageName);
  }

  /** The encoded configType pair is the text the source formats. */
  lemma ConfigParamText(value: string)
    ensures EncodedParam((ConfigTypeName, value)) == ConfigTypeName + "=" + Encode(value)
  {
    ConfigTypeNameUnencoded();
  }

  /** The encoded searchPackage pair is the text the source formats. */
  lemma SearchParamText(value: string)
    ensures EncodedParam((SearchPackageName, value)) == SearchPackageName + "=" + Encode(value)
  {
    SearchPackageNameUnencoded();
  }

  /** The encoded platform pair is the text the source formats with its literal key. */
  lemma PlatformParamText(value: string)
    ensures EncodedParam((PlatformName, value)) == PlatformKey + "=" + Encode(value)
  {
    PlatformKeyIsEncodedName();
  }

  /**
   * What the source formats is the percent-encoding of the logical pairs:
   * every parameter of QueryParams is its pair of Fields with key and value
   * encoded, although the source passes only the values through the encoder.
   */
  lemma QueryParamsEncodeFields(selected: seq<nat>, configIndex: nat, search: string)
    requires ValidSelection(selected) && configIndex < |ConfigTypes|
    ensures QueryParams(selected, configIndex, search) == EncodedParams(Fields(selected, configIndex, search))
  {
    EncodedParamsAppend(PlatformFields(selected) + ConfigFields(configIndex), SearchFields(search));
    EncodedParamsAppend(PlatformFields(selected), ConfigFields(configIndex));
    PlatformParamsEncodeFields(selected);
    ConfigParamsEncodeFields(configIndex);
    SearchParamsEncodeFields(search);
  }

  lemma ConfigParamsEncodeFields(configIndex: nat)
    requires configIndex < |ConfigTypes|
    ensures ConfigParams(configIndex) == EncodedParams(ConfigFields(configIndex))
  {
    if configIndex > 0 {
      ConfigParamText(ConfigTypes[configIndex]);
    }
  }

  lemma SearchParamsEncodeFields(search: string)
    ensures SearchParams(search) == EncodedParams(SearchFields(search))
  {
    if search != [] {
      SearchParamText(search);
    }
  }

  lemma PlatformParamsEncodeFields(selected: seq<nat>)
    requires ValidSelection(selected)
    ensures PlatformParams(selected) == EncodedParams(PlatformFields(selected))
  {
    forall i | 0 <= i < |selected|
      ensures PlatformParams(selected)[i] == EncodedParams(PlatformFields(selected))[i]
    {
      PlatformParamText(Platforms[selected[i]]);
    }
  }

  /**
   * The parameters one by one: a platform parameter with the literal key for
   * each selected index, in selection order; then configType exactly when
   * configIndex > 0; then searchPackage exactly when the term is non-empty.
   */
  lemma QueryParamsShape(selected: seq<nat>, configIndex: nat, search: string)
    requires ValidSelection(selected) && configIndex < |ConfigTypes|
    ensures var ps := QueryParams(selected, configIndex, search);
      && |ps| == |selected| + (if configIndex > 0 then 1 else 0) + (if search != [] then 1 else 0)
      && (forall i :: 0 <= i < |selected| ==>
            ps[i] == PlatformKey + "=" + Encode(Platforms[selected[i]]))
      && (configIndex > 0 ==> ps[|selected|] == ConfigTypeName + "=" + Encode(ConfigTypes[configIndex]))
      && (search != [] ==> ps[|ps| - 1] == SearchPackageName + "=" + Encode(search))
  {
  }

  /** No parameter at all exactly when nothing was selected, typed or chosen. */
  lemma NoParamsIff(selected: seq<nat>, configIndex: nat, search: string)
    requires ValidSelection(selected) && configIndex < |ConfigTypes|
    ensures QueryParams(selected, configIndex, search) == [] <==>
              selected == [] && configIndex == 0 && search == []
  {
    QueryParamsShape(selected, configIndex, search);
  }

  lemma {:induction false} PlatformFieldValues(selected: seq<nat>, key: string)
    requires ValidSelection(selected)
    ensures Values(PlatformFields(selected), key) ==
              if key == PlatformName then PlatformNames(selected) else []
  {
    if selected != [] {
      assert PlatformFields(selected)[1..] == PlatformFields(selected[1..]);
      PlatformFieldValues(selected[1..], key);
      if key == PlatformName {
        assert PlatformNames(selected) == [Platforms[selected[0]]] + PlatformNames(selected[1..]);
      }
    }
  }

  /**
   * What the request carries under each key: the names of the selected
   * platforms, one per index and in selection order; the chosen config type
   * once, and only when configIndex > 0; the search term once, and only when
   * it is non-empty.
   */
  lemma FieldsCarry(selected: seq<nat>, configIndex: nat, search: string)
    requires ValidSelection(selected) && configIndex < |ConfigTypes|
    ensures var fs := Fields(selected, configIndex, search);
      && Values(fs, PlatformName) == PlatformNames(selected)
      && Values(fs, ConfigTypeName) == (if configIndex > 0 then [ConfigTypes[configIndex]] else [])
      && Values(fs, SearchPackageName) == (if search != [] then [search] else [])
  {
    assert PlatformName[0] != ConfigTypeName[0] && PlatformName[0] != SearchPackageName[0];
    assert |ConfigTypeName| != |SearchPackageName|;
    FieldsValues(selected, configIndex, search, PlatformName);
    FieldsValues(selected, configIndex, search, ConfigTypeName);
    FieldsValues(selected, configIndex, search, SearchPackageName);
  }

  lemma FieldsValues(selected: seq<nat>, configIndex: nat, search: string, key: string)
    requires ValidSelection(selected) && configIndex < |ConfigTypes|
    ensures Values(Fields(selected, configIndex, search), key) ==
              (if key == PlatformName then PlatformNames(selected) else [])
              + (if configIndex > 0 && key == ConfigTypeName then [ConfigTypes[configIndex]] else [])
              + (if search != [] && key == SearchPackageName then [search] else [])
  {
    var platforms, config, term := PlatformFields(selected), ConfigFields(configIndex), SearchFields(search);
    ValuesAppend(platforms + config, term, key);
    ValuesAppend(platforms, config, key);
    PlatformFieldValues(selected, key);
    assert Values(config, key) == if configIndex > 0 && key == ConfigTypeName then [ConfigTypes[configIndex]] else [];
    assert Values(term, key) == if search != [] && key == SearchPackageName then [search] else [];
  }

  /** The position of a key in the fixed parameter order. */
  function Rank(key: string): nat {
    if key == PlatformName then 0 else if key == ConfigTypeName then 1 else 2
  }

  /** All platform pairs come first, then configType, then searchPackage. */
  lemma FieldOrder(selected: seq<nat>, configIndex: nat, search: string)
    requires ValidSelection(selected) && configIndex < |ConfigTypes|
    ensures var fs := Fields(selected, configIndex, search);
      forall i, j :: 0 <= i < j < |fs| ==> Rank(fs[i].0) <= Rank(fs[j].0)
  {
    var fs := Fields(selected, configIndex, search);
    assert PlatformName[0] != ConfigTypeName[0] && PlatformName[0] != SearchPackageName[0];
    assert |ConfigTypeName| != |SearchPackageName|;
    assert Rank(PlatformName) == 0 && Rank(ConfigTypeName) == 1 && Rank(SearchPackageName) == 2;
    forall i | 0 <= i < |fs|
      ensures Rank(fs[i].0) == if i < |selected| then 0
                               else if configIndex > 0 && i == |selected| then 1
                               else 2
    {
      if i < |selected| {
        assert fs[i] == (PlatformName, Platforms[selected[i]]);
      }
    }
  }

  /**
   * Round trip: a query built from a non-empty selection parses back into
   * exactly the pairs of Fields, in order, with keys and values as UTF-8 bytes.
   */
  lemma BuiltQueryParsesBack(selected: seq<nat>, configIndex: nat, search: string)
    requires ValidSelection(selected) && configIndex < |ConfigTypes|
    requires selected != []
    ensures ParseQuery(Join(QueryParams(selected, configIndex, search), "&")) ==
              Some(Utf8Fields(Fields(selected, configIndex, search)))
  {
    QueryParamsEncodeFields(selected, configIndex, search);
    ParseJoinedParams(Fields(selected, configIndex, search));
  }

  predicate StrictlyAscending(s: seq<nat>) {
    forall i, j :: 0 <= i < j < |s| ==> s[i] < s[j]
  }

  /** The indices in [from, n) that occur in `chosen`, in increasing order. */
  function ChosenInOrder(chosen: seq<nat>, from: nat, n: nat): (r: seq<nat>)
    ensures forall k :: 0 <= k < |r| ==> from <= r[k] < n
    decreases n - from
  {
    if from >= n then []
    else (if from in chosen then [from] else []) + ChosenInOrder(chosen, from + 1, n)
  }

  /** An ascending sequence of indices in [from, n) is the chosen indices in increasing order. */
  lemma {:induction false} AscendingIsChosenInOrder(s: seq<nat>, chosen: seq<nat>, from: nat, n: nat)
    requires StrictlyAscending(s)
    requires forall k :: 0 <= k < |s| ==> from <= s[k] < n
    requires forall x :: from <= x < n ==> (x in chosen <==> x in s)
    ensures s == ChosenInOrder(chosen, from, n)
    decreases n - from
  {
    if from >= n {
      if s != [] {
        NonEmptyRange(s, from, n);
      }
    } else if from in chosen {
      assert from in s;
      var k :| 0 <= k < |s| && s[k] == from;
      FirstIsLeast(s, k);
      AscendingTail(s, chosen, from, n);
      AscendingIsChosenInOrder(s[1..], chosen, from + 1, n);
      assert s == [from] + s[1..];
    } else {
      forall m | 0 <= m < |s| ensures from + 1 <= s[m] < n {
        assert s[m] != from;
      }
      AscendingIsChosenInOrder(s, chosen, from + 1, n);
    }
  }

  /** Without its first element `from`, the sequence covers the chosen indices in [from + 1, n). */
  lemma AscendingTail(s: seq<nat>, chosen: seq<nat>, from: nat, n: nat)
    requires StrictlyAscending(s) && s != [] && s[0] == from
    requires forall k :: 0 <= k < |s| ==> from <= s[k] < n
    requires forall x :: from <= x < n ==> (x in chosen <==> x in s)
    ensures StrictlyAscending(s[1..])
    ensures forall k :: 0 <= k < |s[1..]| ==> from + 1 <= s[1..][k] < n
    ensures forall x :: from + 1 <= x < n ==> (x in chosen <==> x in s[1..])
  {
    forall x | from + 1 <= x < n
      ensures x in chosen <==> x in s[1..]
    {
      if x in s {
        var m :| 0 <= m < |s| && s[m] == x;
        assert m > 0 && s[1..][m - 1] == x;
      }
    }
    forall m | 0 <= m < |s[1..]| ensures from + 1 <= s[1..][m] < n {
      assert s[0] < s[m + 1];
    }
  }

  lemma FirstIsLeast(s: seq<nat>, k: nat)
    requires StrictlyAscending(s) && k < |s|
    ensures s[0] <= s[k]
  {
    if k > 0 {
      assert s[0] < s[k];
    }
  }

  lemma NonEmptyRange(s: seq<nat>, from: nat, n: nat)
    requires s != []
    requires forall k :: 0 <= k < |s| ==> from <= s[k] < n
    ensures from < n
  {
    assert from <= s[0] < n;
  }

  /**
   * When the indices arrive in increasing order, the platform parameters
   * follow the list's own order (windows, mac, linux), restricted to the
   * chosen platforms, whatever order the user ticked them in.
   */
  lemma AscendingSelectionIsCanonical(selected: seq<nat>, configIndex: nat, search: string)
    requires ValidSelection(selected) && configIndex < |ConfigTypes|
    requires StrictlyAscending(selected)
    ensures Values(Fields(selected, configIndex, search), PlatformName) ==
              PlatformNames(ChosenInOrder(selected, 0, |Platforms|))
  {
    AscendingIsChosenInOrder(selected, selected, 0, |Platforms|);
    FieldsCarry(selected, configIndex, search);
  }

  // The examples take their inputs as parameters, and the literal text is
  // compared in helpers of their own: the verifier then reasons about
  // names symbolically instead of evaluating Encode on each literal.

  /** Only "mac", no config type, no search term: the URL is base ++ "?platform%5B%5D=mac". */
  lemma MacOnlyExample(selected: seq<nat>, configIndex: nat, search: string)
    requires selected == [1] && configIndex == 0 && search == ""
    ensures QueryParams(selected, configIndex, search) == ["platform%5B%5D=mac"]
    ensures Join(QueryParams(selected, configIndex, search), "&") == "platform%5B%5D=mac"
  {
    MacOnlyParams(selected, configIndex, search);
    MacOnlyText(Platforms[1]);
  }

  lemma MacOnlyParams(selected: seq<nat>, configIndex: nat, search: string)
    requires selected == [1] && configIndex == 0 && search == ""
    ensures QueryParams(selected, configIndex, search) == [PlatformKey + "=" + Platforms[1]]
  {
    QueryParamsShape(selected, configIndex, search);
    EncodeUnreserved(Platforms[1]);
  }

  lemma MacOnlyText(mac: string)
    requires mac == "mac"
    ensures PlatformKey + "=" + mac == "platform%5B%5D=mac"
  {
  }

  /** "windows" and "linux", config type "user", search term "7zip": the four parameters in order. */
  lemma WindowsLinuxUserExample(selected: seq<nat>, configIndex: nat, search: string)
    requires |selected| == 2 && selected[0] == 0 && selected[1] == 2
    requires configIndex == 2 && search == "7zip"
    ensures var ps := QueryParams(selected, configIndex, search);
      && |ps| == 4
      && ps[0] == "platform%5B%5D=windows" && ps[1] == "platform%5B%5D=linux"
      && ps[2] == "configType=user" && ps[3] == "searchPackage=7zip"
  {
    TwoPlatformsConfigSearch(selected, configIndex, search);
    EncodeOptionName(Platforms[0]);
    EncodeOptionName(Platforms[2]);
    EncodeOptionName(ConfigTypes[2]);
    SevenZipUnencoded(search);
    PlatformParamLiteral(Platforms[0], "platform%5B%5D=windows");
    PlatformParamLiteral(Platforms[2], "platform%5B%5D=linux");
    ConfigParamLiteral(ConfigTypes[2]);
    SearchParamLiteral(search);
  }

  lemma TwoPlatformsConfigSearch(selected: seq<nat>, configIndex: nat, search: string)
    requires ValidSelection(selected) && |selected| == 2
    requires 0 < configIndex < |ConfigTypes| && search != []
    ensures var ps := QueryParams(selected, configIndex, search);
      && |ps| == 4
      && ps[0] == PlatformKey + "=" + Encode(Platforms[selected[0]])
      && ps[1] == PlatformKey + "=" + Encode(Platforms[selected[1]])
      && ps[2] == ConfigTypeName + "=" + Encode(ConfigTypes[configIndex])
      && ps[3] == SearchPackageName + "=" + Encode(search)
  {
    QueryParamsShape(selected, configIndex, search);
  }

  lemma SevenZipUnencoded(term: string)
    requires term == "7zip"
    ensures Encode(term) == term
  {
    EncodeUnreserved(term);
  }

  lemma PlatformParamLiteral(name: string, text: string)
    requires (name == "windows" && text == "platform%5B%5D=windows")
          || (name == "linux" && text == "platform%5B%5D=linux")
    ensures PlatformKey + "=" + name == text
  {
  }

  lemma ConfigParamLiteral(user: string)
    requires user == "user"
    ensures ConfigTypeName + "=" + user == "configType=user"
  {
  }

  lemma SearchParamLiteral(term: string)
    requires term == "7zip"
    ensures SearchPackageName + "=" + term == "searchPackage=7zip"
  {
  }
}
