/**
 * The `values` command: read a values file, collect the key of every
 * `@{KEY}` token into a map from key to the empty string, and print it as
 * JSON or YAML.
 */
module Values {
  import opened Results
  import opened Files
  import P = Placeholder

  const DefaultOutputFormat: string := "json"

  datatype Format = Json | Yaml

  datatype ValuesError = CannotRead(path: string, cause: IoError) | UnsupportedFormat(format: string)

  /**
   * The key-collection loop of `extractValues`: one entry per distinct
   * capture, each mapped to the empty string.
   */
  method CollectKeys(matches: seq<string>) returns (vars: map<string, string>)
    ensures vars.Keys == set k | k in matches
    ensures forall k :: k in vars ==> vars[k] == ""
    ensures |vars| <= |matches|
  {
    vars := map[];
    var i := 0;
    while i < |matches|
      invariant 0 <= i <= |matches|
      invariant vars.Keys == set k | k in matches[..i]
      invariant forall k :: k in vars ==> vars[k] == ""
      invariant |vars| <= i
    {
      assert matches[..i + 1] == matches[..i] + [matches[i]];
      vars := vars[matches[i] := ""];
      i := i + 1;
    }
    assert matches[..i] == matches;
  }

  /**
   * `extractValues(path)`: the keys are those of the tokens found by the same
   * scan that `apply-vars` substitutes with, so every key is non-empty and
   * free of `}`; text without tokens gives the empty map.
   */
  method ExtractValues(fs: FileSystem, path: string) returns (r: Result<map<string, string>, ValuesError>)
    ensures r.Failure? <==> Read(fs, path).Failure?
    ensures r.Failure? ==> r.error == CannotRead(path, Read(fs, path).error)
    ensures r.Success? ==> r.value.Keys == set k | k in P.Matches(fs.files[path])
    ensures r.Success? ==> forall k :: k in r.value ==> r.value[k] == "" && P.IsKey(k)
    ensures r.Success? ==> |r.value| <= |P.Matches(fs.files[path])|
    ensures r.Success? ==> (r.value == map[] <==> P.Matches(fs.files[path]) == [])
  {
    match Read(fs, path) {
      case Failure(e) =>
        r := Failure(CannotRead(path, e));
      case Success(content) =>
        var matches := P.Matches(content);
        P.ScanIsTokenization(content);
        P.CapturesAreKeys(P.Scan(content));
        var vars := CollectKeys(matches);
        if matches != [] {
          assert matches[0] in vars;
        }
        r := Success(vars);
    }
  }

  /** The `--output` flag: empty means `json`; only `json` and `yaml` are accepted. */
  function OutputFormat(flag: string): (r: Result<Format, ValuesError>)
    ensures r == Success(Json) <==> flag == "" || flag == DefaultOutputFormat
    ensures r == Success(Yaml) <==> flag == "yaml"
    ensures r.Failure? <==> flag !in {"", "json", "yaml"}
    ensures r.Failure? ==> r.error == UnsupportedFormat(flag)
  {
    var chosen := if flag == "" then DefaultOutputFormat else flag;
    if chosen == "json" then Success(Json)
    else if chosen == "yaml" then Success(Yaml)
    else Failure(UnsupportedFormat(chosen))
  }

  /**
   * The whole command: the file is read before the format is checked, so an
   * unreadable file is reported even when the format is unsupported.
   */
  method ValuesCommand(fs: FileSystem, path: string, flag: string)
    returns (r: Result<(Format, map<string, string>), ValuesError>)
    ensures Read(fs, path).Failure? ==> r == Failure(CannotRead(path, Read(fs, path).error))
    ensures Read(fs, path).Success? ==> (r.Failure? <==> OutputFormat(flag).Failure?)
    ensures Read(fs, path).Success? && r.Failure? ==> r.error == UnsupportedFormat(flag)
    ensures r.Success? ==> r.value.0 == OutputFormat(flag).value
    ensures r.Success? ==> r.value.1.Keys == set k | k in P.Matches(fs.files[path])
    ensures r.Success? ==> forall k :: k in r.value.1 ==> r.value.1[k] == ""
  {
    var vars := ExtractValues(fs, path);
    if vars.Failure? {
      r := Failure(vars.error);
      return;
    }
    match OutputFormat(flag) {
      case Failure(e) => r := Failure(e);
      case Success(format) => r := Success((format, vars.value));
    }
  }
}
