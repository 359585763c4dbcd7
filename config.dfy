/** `load_config`: the parsed settings document and the home-directory
    expansion of its three path-bearing keys. */
module Config {

  /** A value of the settings document: a YAML string, a `!!binary` value
      (Python `bytes`), or any other YAML value (number, boolean, null, list,
      mapping), kept by its text. */
  datatype Value = Text(s: string) | Binary(data: seq<bv8>) | Other(repr: string)

  /** What `yaml.safe_load` gives back: a top-level mapping, or a parse error. */
  datatype Document = Mapping(entries: map<string, Value>) | Malformed(message: string)

  /** What `load_config` ends with: the settings, `None` after a YAML error,
      or the `TypeError` raised by `os.path.expanduser` on a path key whose
      value is not a string. */
  datatype LoadResult =
    | Loaded(config: map<string, Value>)
    | Unavailable
    | ExpandFailed(key: string)

  const SdCardPath := "sd_card_path"
  const DriveFolderId := "google_drive_folder_id"
  const ServiceJsonPath := "service_json_path"

  /** The keys `load_config` rewrites, in the order it rewrites them. */
  const PathKeys: seq<string> := [SdCardPath, DriveFolderId, ServiceJsonPath]

  /** `key` is present and `os.path.expanduser` cannot take its value: it
      accepts `str` and `bytes` and raises `TypeError` on anything else. */
  predicate NotExpandable(m: map<string, Value>, key: string)
  {
    key in m && m[key].Other?
  }

  /** `os.path.expanduser` on a string or a bytes value, which keeps its type. */
  function Expanded(v: Value, expand: string -> string, expandBytes: seq<bv8> -> seq<bv8>): (r: Value)
    requires !v.Other?
    ensures r.Text? <==> v.Text?
    ensures r.Binary? <==> v.Binary?
  {
    if v.Text? then Text(expand(v.s)) else Binary(expandBytes(v.data))
  }

  /** `load_config` after parsing: each path key that is present is replaced,
      in place and one after the other, by its home-expanded value; nothing
      else is touched. `expand` and `expandBytes` stand for
      `os.path.expanduser` on `str` and on `bytes`. */
  method LoadConfig(doc: Document, expand: string -> string, expandBytes: seq<bv8> -> seq<bv8>)
    returns (r: LoadResult)
    ensures doc.Malformed? <==> r.Unavailable?
    ensures r.ExpandFailed? <==> doc.Mapping? && exists k :: k in PathKeys && NotExpandable(doc.entries, k)
    ensures r.ExpandFailed? ==>
      exists j | 0 <= j < |PathKeys| ::
        r.key == PathKeys[j] && NotExpandable(doc.entries, PathKeys[j]) &&
        forall i | 0 <= i < j :: !NotExpandable(doc.entries, PathKeys[i])
    ensures r.Loaded? ==> doc.Mapping? && r.config.Keys == doc.entries.Keys
    ensures r.Loaded? ==>
      forall k | k in doc.entries ::
        if k in PathKeys then !doc.entries[k].Other? && r.config[k] == Expanded(doc.entries[k], expand, expandBytes)
        else r.config[k] == doc.entries[k]
  {
    if doc.Malformed? {
      return Unavailable;
    }
    var config := doc.entries;
    if SdCardPath in config {
      if config[SdCardPath].Other? {
        assert PathKeys[0] == SdCardPath && NotExpandable(doc.entries, SdCardPath);
        return ExpandFailed(SdCardPath);
      }
      config := config[SdCardPath := Expanded(config[SdCardPath], expand, expandBytes)];
    }
    if DriveFolderId in config {
      if config[DriveFolderId].Other? {
        assert PathKeys[1] == DriveFolderId && NotExpandable(doc.entries, DriveFolderId);
        return ExpandFailed(DriveFolderId);
      }
      config := config[DriveFolderId := Expanded(config[DriveFolderId], expand, expandBytes)];
    }
    if ServiceJsonPath in config {
      if config[ServiceJsonPath].Other? {
        assert PathKeys[2] == ServiceJsonPath && NotExpandable(doc.entries, ServiceJsonPath);
        return ExpandFailed(ServiceJsonPath);
      }
      config := config[ServiceJsonPath := Expanded(config[ServiceJsonPath], expand, expandBytes)];
    }
    r := Loaded(config);
  }
}
