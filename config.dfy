/** The configuration store of src/config.rs: the typed configuration, its
    constructors and sample value, the choice of the file path, and the
    first-run bootstrap that writes the sample when no file exists.

    The TOML crate is not modelled: its two entry points are supplied as a
    `TomlCodec` value. The environment is a map of variables and the
    working directory; the file system is an object whose file map the
    bootstrap updates in place. */
module Config {
  import opened Base

  /** One advertised server (src/config.rs:16-21). */
  datatype ServerConfig = ServerConfig(url: string, id: string, name: string)

  /** The whole configuration file (src/config.rs:33-38). */
  datatype Config = Config(version: string, port: uint16, server: seq<ServerConfig>)

  /** The three failure kinds of `read_config` (src/config.rs:96-104). The
      source spells the first one `Derserialize`. */
  datatype ConfigError = Deserialize | Serialize | Io

  type Path = string

  const CurrentVersion: string := "1"
  const SamplePort: uint16 := 7359
  const ConfigVariable: string := "JDU_CONF"
  const DefaultFileName: Path := "discover.toml"

  /** `ServerConfig::new`: copies its three arguments unchanged. */
  function NewServerConfig(url: string, id: string, name: string): (s: ServerConfig)
    ensures s.url == url && s.id == id && s.name == name
  {
    ServerConfig(url, id, name)
  }

  /** `Config::new`: the version is always the current one; port and server
      list are kept as given, order included. */
  function NewConfig(port: uint16, servers: seq<ServerConfig>): (c: Config)
    ensures c.version == CurrentVersion
    ensures c.port == port
    ensures |c.server| == |servers| && forall i :: 0 <= i < |servers| ==> c.server[i] == servers[i]
  {
    Config(CurrentVersion, port, servers)
  }

  /** A configuration is one that `Config::new` builds exactly when it carries
      the current version: the constructor loses nothing but the version. */
  lemma NewConfigCharacterized(c: Config)
    ensures NewConfig(c.port, c.server) == c <==> c.version == CurrentVersion
  {
    var d := NewConfig(c.port, c.server);
    assert d.server == c.server;
  }

  /** The value that `create_sample_config` writes on first run. */
  function SampleConfig(): (c: Config)
    ensures c.version == CurrentVersion && c.port == 7359
    ensures c.server == [ServerConfig("http://jellyfin-test.local", "CHANGEME", "Test Jellyfin Server")]
  {
    NewConfig(SamplePort, [NewServerConfig("http://jellyfin-test.local", "CHANGEME", "Test Jellyfin Server")])
  }

  /** `toml::from_str::<Config>` and `toml::to_string::<Config>`, supplied
      from outside; `None` stands for the crate's error value. */
  datatype TomlCodec = TomlCodec(parse: string -> Option<Config>, render: Config -> Option<string>)

  /** What the serde derive promises of a correct TOML crate for `c`: what
      it renders it parses back to the same value. */
  predicate RoundTrips(codec: TomlCodec, c: Config) {
    codec.render(c).Some? ==> codec.parse(codec.render(c).value) == Some(c)
  }

  // ---- Path choice (src/config.rs:53-59)

  predicate IsAbsolute(p: Path) {
    p != [] && p[0] == '/'
  }

  /** `dir` joined with the relative path `p`, with one separator between. */
  function Join(dir: Path, p: Path): (r: Path)
    ensures |r| >= |p| && r[|r| - |p|..] == p
    ensures IsAbsolute(dir) ==> IsAbsolute(r)
  {
    if dir != [] && dir[|dir| - 1] == '/' then dir + p else dir + "/" + p
  }

  /** `std::path::absolute` on a Unix host: the empty path is an error; an
      absolute path is kept; a relative one is joined to the working
      directory, which may itself be unavailable (`None`). Every failure is
      an I/O error, carried into `ConfigError::Io` by `?`. */
  function Absolute(p: Path, cwd: Option<Path>): (r: Result<Path, ConfigError>)
    ensures r.Err? <==> p == [] || (!IsAbsolute(p) && cwd.None?)
    ensures r.Err? ==> r.error == Io
    ensures r.Ok? ==> |r.value| >= |p| && r.value[|r.value| - |p|..] == p
    ensures r.Ok? && IsAbsolute(p) ==> r.value == p
    ensures r.Ok? && (cwd.Some? ==> IsAbsolute(cwd.value)) ==> IsAbsolute(r.value)
  {
    if p == [] then Err(Io)
    else if IsAbsolute(p) then Ok(p)
    else if cwd.None? then Err(Io)
    else Ok(Join(cwd.value, p))
  }

  /** The configuration file: `JDU_CONF` when that variable is set, otherwise
      `discover.toml`, made absolute. */
  function ConfigPath(vars: map<string, string>, cwd: Option<Path>): (r: Result<Path, ConfigError>)
    ensures r.Err? ==> r.error == Io
    ensures r.Ok? && (cwd.Some? ==> IsAbsolute(cwd.value)) ==> IsAbsolute(r.value)
  {
    if ConfigVariable in vars then Absolute(vars[ConfigVariable], cwd)
    else Absolute(DefaultFileName, cwd)
  }

  /** Without the variable, the path is the default name in the working
      directory, and resolving it fails exactly when there is no working
      directory. */
  lemma DefaultPath(vars: map<string, string>, cwd: Option<Path>)
    requires ConfigVariable !in vars
    ensures ConfigPath(vars, cwd).Ok? <==> cwd.Some?
    ensures cwd.Some? ==> ConfigPath(vars, cwd) == Ok(Join(cwd.value, DefaultFileName))
  {
    assert DefaultFileName[0] == 'd';
  }

  /** With the variable set, its value is the path (made absolute), and the
      default name plays no part. */
  lemma OverriddenPath(vars: map<string, string>, cwd: Option<Path>)
    requires ConfigVariable in vars
    ensures ConfigPath(vars, cwd) == Absolute(vars[ConfigVariable], cwd)
    ensures IsAbsolute(vars[ConfigVariable]) ==> ConfigPath(vars, cwd) == Ok(vars[ConfigVariable])
    ensures vars[ConfigVariable] == [] ==> ConfigPath(vars, cwd) == Err(Io)
  {
  }

  // ---- The file system and the bootstrap (src/config.rs:61-93)

  /** The files that `read_config` can see. `faulty` holds the paths on which
      reading or writing fails (permission denied, a missing parent
      directory, a full disk). */
  class FileSystem {
    var files: map<Path, string>
    var faulty: set<Path>

    constructor (files: map<Path, string>, faulty: set<Path>)
      ensures this.files == files && this.faulty == faulty
    {
      this.files := files;
      this.faulty := faulty;
    }

    /** `Path::exists`. */
    predicate Exists(p: Path)
      reads this
    {
      p in files
    }

    /** `fs::read_to_string`: the contents, or an I/O error. */
    method ReadToString(p: Path) returns (r: Result<string, ConfigError>)
      ensures r.Ok? <==> p in files && p !in faulty
      ensures r.Ok? ==> r.value == files[p]
      ensures r.Err? ==> r.error == Io
    {
      if p in files && p !in faulty {
        r := Ok(files[p]);
      } else {
        r := Err(Io);
      }
    }

    /** `fs::write`: creates or replaces the file, or fails with nothing written. */
    method Write(p: Path, contents: string) returns (r: Result<(), ConfigError>)
      modifies this
      ensures faulty == old(faulty)
      ensures p in faulty ==> r == Err(Io) && files == old(files)
      ensures p !in faulty ==> r == Ok(()) && files == old(files)[p := contents]
    {
      if p in faulty {
        r := Err(Io);
      } else {
        files := files[p := contents];
        r := Ok(());
      }
    }
  }

  /** The outcome of loading: the result returned, and the file map after. */
  datatype Loaded = Loaded(result: Result<Config, ConfigError>, files: map<Path, string>)

  /** What the existing-file branch returns: the parse of the file. */
  function ReadExisting(p: Path, files: map<Path, string>, faulty: set<Path>, codec: TomlCodec): Result<Config, ConfigError>
    requires p in files
  {
    if p in faulty then Err(Io)
    else
      match codec.parse(files[p])
      case None => Err(Deserialize)
      case Some(c) => Ok(c)
  }

  /** What `create_sample_config` does: render the sample, write it to `p`,
      return it. */
  function CreateSample(p: Path, files: map<Path, string>, faulty: set<Path>, codec: TomlCodec): Loaded {
    match codec.render(SampleConfig())
    case None => Loaded(Err(Serialize), files)
    case Some(text) =>
      if p in faulty then Loaded(Err(Io), files) else Loaded(Ok(SampleConfig()), files[p := text])
  }

  /** What `read_config` does, as a function of the environment and the
      file system before the call. */
  function Load(vars: map<string, string>, cwd: Option<Path>, files: map<Path, string>,
                faulty: set<Path>, codec: TomlCodec): Loaded
  {
    match ConfigPath(vars, cwd)
    case Err(e) => Loaded(Err(e), files)
    case Ok(p) =>
      if p in files then Loaded(ReadExisting(p, files, faulty, codec), files)
      else CreateSample(p, files, faulty, codec)
  }

  /** `create_sample_config`. */
  method CreateSampleConfig(fs: FileSystem, p: Path, codec: TomlCodec) returns (r: Result<Config, ConfigError>)
    modifies fs
    ensures fs.faulty == old(fs.faulty)
    ensures Loaded(r, fs.files) == CreateSample(p, old(fs.files), old(fs.faulty), codec)
  {
    var config := SampleConfig();
    var rendered := codec.render(config);
    if rendered.None? {
      return Err(Serialize);
    }
    var written := fs.Write(p, rendered.value);
    if written.Err? {
      return Err(written.error);
    }
    r := Ok(config);
  }

  /** `read_config`. */
  method ReadConfig(fs: FileSystem, vars: map<string, string>, cwd: Option<Path>, codec: TomlCodec)
    returns (r: Result<Config, ConfigError>)
    modifies fs
    ensures fs.faulty == old(fs.faulty)
    ensures Loaded(r, fs.files) == Load(vars, cwd, old(fs.files), old(fs.faulty), codec)
  {
    var path: Result<Path, ConfigError>;
    if ConfigVariable in vars {
      path := Absolute(vars[ConfigVariable], cwd);
    } else {
      path := Absolute(DefaultFileName, cwd);
    }
    if path.Err? {
      return Err(path.error);
    }
    var p := path.value;
    if fs.Exists(p) {
      var contents := fs.ReadToString(p);
      if contents.Err? {
        return Err(contents.error);
      }
      var parsed := codec.parse(contents.value);
      if parsed.None? {
        return Err(Deserialize);
      }
      r := Ok(parsed.value);
    } else {
      r := CreateSampleConfig(fs, p, codec);
    }
  }

  // ---- Properties of loading

  /** An existing file is only read: the file map is unchanged, and the
      result is the parse of the file, a Deserialize error when the parse
      fails, or an Io error when the read does. */
  lemma LoadExisting(vars: map<string, string>, cwd: Option<Path>, files: map<Path, string>,
                     faulty: set<Path>, codec: TomlCodec)
    requires ConfigPath(vars, cwd).Ok? && ConfigPath(vars, cwd).value in files
    ensures var p := ConfigPath(vars, cwd).value;
            var l := Load(vars, cwd, files, faulty, codec);
            && l.files == files
            && (l.result.Ok? <==> p !in faulty && codec.parse(files[p]).Some?)
            && (l.result.Ok? ==> codec.parse(files[p]) == Some(l.result.value))
            && (l.result == Err(Deserialize) <==> p !in faulty && codec.parse(files[p]).None?)
  {
  }

  /** A missing file is created: on success the path now holds the rendered
      sample, the sample is returned, and no other path changes; on failure
      nothing is written. */
  lemma LoadAbsent(vars: map<string, string>, cwd: Option<Path>, files: map<Path, string>,
                   faulty: set<Path>, codec: TomlCodec)
    requires ConfigPath(vars, cwd).Ok? && ConfigPath(vars, cwd).value !in files
    ensures var p := ConfigPath(vars, cwd).value;
            var l := Load(vars, cwd, files, faulty, codec);
            && (l.result.Ok? <==> codec.render(SampleConfig()).Some? && p !in faulty)
            && (l.result.Ok? ==> l.result.value == SampleConfig()
                                 && p in l.files && Some(l.files[p]) == codec.render(SampleConfig())
                                 && l.files.Keys == files.Keys + {p}
                                 && forall q :: q in files ==> l.files[q] == files[q])
            && (l.result.Err? ==> l.files == files)
  {
  }

  /** Writing a new path adds that one path and keeps every other file. */
  lemma WriteNewFile(files: map<Path, string>, p: Path, text: string)
    requires p !in files
    ensures files[p := text].Keys == files.Keys + {p}
    ensures forall q :: q in files ==> files[p := text][q] == files[q]
  {
  }

  /** Whatever happens, loading never alters or removes an existing file and
      creates at most the one file at the configuration path. */
  lemma LoadPreservesExistingFiles(vars: map<string, string>, cwd: Option<Path>, files: map<Path, string>,
                                   faulty: set<Path>, codec: TomlCodec)
    ensures var l := Load(vars, cwd, files, faulty, codec);
            && files.Keys <= l.files.Keys
            && (forall q :: q in files ==> l.files[q] == files[q])
            && (l.files != files ==> ConfigPath(vars, cwd).Ok? && l.files.Keys == files.Keys + {ConfigPath(vars, cwd).value})
  {
    var l := Load(vars, cwd, files, faulty, codec);
    if ConfigPath(vars, cwd).Ok? && ConfigPath(vars, cwd).value !in files {
      var p := ConfigPath(vars, cwd).value;
      var rendered := codec.render(SampleConfig());
      if rendered.Some? && p !in faulty {
        assert l.files == files[p := rendered.value];
        WriteNewFile(files, p, rendered.value);
      } else {
        assert l.files == files;
      }
    } else {
      assert l.files == files;
    }
  }

  /** The three error kinds are told apart by where loading stopped:
      Deserialize only for an existing file, Serialize only for a missing
      one, and Io for a path that cannot be resolved, read or written. */
  lemma LoadErrorKinds(vars: map<string, string>, cwd: Option<Path>, files: map<Path, string>,
                       faulty: set<Path>, codec: TomlCodec)
    ensures var l := Load(vars, cwd, files, faulty, codec);
            && (l.result == Err(Deserialize) ==> ConfigPath(vars, cwd).Ok? && ConfigPath(vars, cwd).value in files)
            && (l.result == Err(Serialize) ==> ConfigPath(vars, cwd).Ok? && ConfigPath(vars, cwd).value !in files
                                               && codec.render(SampleConfig()).None?)
            && (l.result == Err(Io) ==> ConfigPath(vars, cwd).Err? || ConfigPath(vars, cwd).value in faulty)
  {
  }

  /** The bootstrap is what the operator sees on the next start: once the
      sample has been written, loading again with the same environment reads
      that file, returns the sample itself and writes nothing, provided the
      TOML crate reads back what it writes. */
  lemma BootstrapThenReload(vars: map<string, string>, cwd: Option<Path>, files: map<Path, string>,
                            faulty: set<Path>, codec: TomlCodec)
    requires RoundTrips(codec, SampleConfig())
    requires ConfigPath(vars, cwd).Ok? && ConfigPath(vars, cwd).value !in files
    requires Load(vars, cwd, files, faulty, codec).result.Ok?
    ensures var first := Load(vars, cwd, files, faulty, codec);
            Load(vars, cwd, first.files, faulty, codec) == Loaded(Ok(SampleConfig()), first.files)
  {
    var p := ConfigPath(vars, cwd).value;
    var first := Load(vars, cwd, files, faulty, codec);
    LoadAbsent(vars, cwd, files, faulty, codec);
    assert p in first.files && p !in faulty;
    assert Some(first.files[p]) == codec.render(SampleConfig());
  }
}
