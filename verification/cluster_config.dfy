/** Loading and validating a named cluster's configuration file
    (`LoadClusterConfig`). */
module ClusterConfigs {
  import opened Common
  import FilePaths

  /** The `cluster:` section: name, kube context and any further inline
      variables (their YAML values are kept as text). */
  datatype ClusterInfo = ClusterInfo(name: string, context: string, vars: map<string, string>)

  datatype ClusterConfig = ClusterConfig(cluster: ClusterInfo)

  /** Why a configuration could not be loaded. Read and parse failures carry
      the underlying error unchanged. */
  datatype LoadError =
    | NameRequired
    | ConfigNotFound(name: string)
    | ReadFailed(cause: string)
    | ParseFailed(cause: string)
    | NameMismatch(found: string, requested: string)

  /** The file system and the YAML decoder, as seen by the loader. */
  datatype Files = Files(
    isFile: string -> bool,
    readFile: string -> Result<Bytes, string>,
    unmarshal: Bytes -> Result<ClusterConfig, string>)

  /** The file a cluster's configuration is read from: `<name>.yml` joined
      to the cluster directory. A name without separators names a file
      directly inside that directory. */
  function ConfigPath(clusterDir: string, name: string): (r: string)
    ensures name != "" && '/' !in name ==> FilePaths.InDir(clusterDir, r)
    ensures name != "" && '/' !in name ==>
              FilePaths.CleanPath(r).segs == FilePaths.CleanPath(clusterDir).segs + [name + ".yml"]
  {
    var file := name + ".yml";
    assert name != "" && '/' !in name ==> FilePaths.IsName(file) && file != ".." by {
      assert forall i :: 0 <= i < |file| ==> file[i] == (if i < |name| then name[i] else ".yml"[i - |name|]);
    }
    if name != "" && '/' !in name then
      FilePaths.JoinName(clusterDir, file);
      FilePaths.Join(clusterDir, file)
    else
      FilePaths.Join(clusterDir, file)
  }

  /** `LoadClusterConfig`: the name is required; the file must exist, be
      readable and decode; and the name inside must be the one asked for. */
  function LoadClusterConfig(clusterDir: string, name: string, fs: Files): (r: Result<ClusterConfig, LoadError>)
    ensures name == "" <==> r == Err(NameRequired)
    ensures name != "" && !fs.isFile(ConfigPath(clusterDir, name)) ==> r == Err(ConfigNotFound(name))
    ensures r.Err? && r.error.ReadFailed? ==>
              var read := fs.readFile(ConfigPath(clusterDir, name));
              read.Err? && r.error.cause == read.error
    ensures r.Err? && r.error.ParseFailed? ==>
              var read := fs.readFile(ConfigPath(clusterDir, name));
              read.Ok? && fs.unmarshal(read.value).Err? && r.error.cause == fs.unmarshal(read.value).error
    ensures r.Err? && r.error.NameMismatch? ==> r.error.requested == name && r.error.found != name
    ensures name != "" && fs.isFile(ConfigPath(clusterDir, name)) && fs.readFile(ConfigPath(clusterDir, name)).Err? ==>
              r == Err(ReadFailed(fs.readFile(ConfigPath(clusterDir, name)).error))
    ensures var read := fs.readFile(ConfigPath(clusterDir, name));
            name != "" && fs.isFile(ConfigPath(clusterDir, name)) && read.Ok? && fs.unmarshal(read.value).Err? ==>
              r == Err(ParseFailed(fs.unmarshal(read.value).error))
    ensures var read := fs.readFile(ConfigPath(clusterDir, name));
            && name != "" && fs.isFile(ConfigPath(clusterDir, name)) && read.Ok? && fs.unmarshal(read.value).Ok?
            && fs.unmarshal(read.value).value.cluster.name != name ==>
              r == Err(NameMismatch(fs.unmarshal(read.value).value.cluster.name, name))
    ensures r.Ok? ==>
              && name != ""
              && fs.isFile(ConfigPath(clusterDir, name))
              && fs.readFile(ConfigPath(clusterDir, name)).Ok?
              && fs.unmarshal(fs.readFile(ConfigPath(clusterDir, name)).value) == Ok(r.value)
    ensures (&& name != ""
             && fs.isFile(ConfigPath(clusterDir, name))
             && fs.readFile(ConfigPath(clusterDir, name)).Ok?
             && fs.unmarshal(fs.readFile(ConfigPath(clusterDir, name)).value).Ok?
             && fs.unmarshal(fs.readFile(ConfigPath(clusterDir, name)).value).value.cluster.name == name)
            ==> r.Ok?
    ensures r.Ok? ==> r.value.cluster.name == name
  {
    if name == "" then Err(NameRequired)
    else
      var p := ConfigPath(clusterDir, name);
      if !fs.isFile(p) then Err(ConfigNotFound(name))
      else
        match fs.readFile(p)
        case Err(e) => Err(ReadFailed(e))
        case Ok(b) =>
          match fs.unmarshal(b)
          case Err(e) => Err(ParseFailed(e))
          case Ok(config) =>
            if config.cluster.name != name then Err(NameMismatch(config.cluster.name, name))
            else Ok(config)
  }

  /** The name is checked before any file is touched: without a name the
      outcome is the same whatever the file system holds. */
  lemma NameCheckedFirst(clusterDir: string, fs1: Files, fs2: Files)
    ensures LoadClusterConfig(clusterDir, "", fs1) == LoadClusterConfig(clusterDir, "", fs2)
  {
  }

  /** A decoded configuration is accepted exactly when it names the
      requested cluster, and is then returned as decoded. */
  lemma AcceptsOnlyMatchingName(clusterDir: string, name: string, fs: Files, config: ClusterConfig)
    requires name != "" && fs.isFile(ConfigPath(clusterDir, name))
    requires fs.readFile(ConfigPath(clusterDir, name)).Ok?
    requires fs.unmarshal(fs.readFile(ConfigPath(clusterDir, name)).value) == Ok(config)
    ensures LoadClusterConfig(clusterDir, name, fs) ==
            if config.cluster.name == name then Ok(config)
            else Err(NameMismatch(config.cluster.name, name))
  {
  }
}
