/**
 * ComposerHelper: locates a project's composer.json, reads it and the
 * installed-packages file through the file system, and post-processes the
 * captured output of `composer outdated`.
 *
 * The file system is a `FileSystem` value and `json_decode($s, true)` is the
 * parameter `decode`; the host's OS name (PHP_OS) is the parameter `os`.
 */
module Helper {
  import opened Wrappers
  import opened Php
  import opened Exceptions
  import opened Files
  import Output

  /** Where `getBinary` finds a binary: inside the project, or by asking the shell. */
  datatype BinaryLocation =
    | LocalBinary(path: string)
    | ShellLookup(commandLine: string)   // what `system` would run; its output is not modelled

  /** The detail `checkFileExisting` puts into its FileNotFoundException. */
  function NotReadableDetail(file: string): string {
    "File '" + file + "' not found or you do not have permissions to read it"
  }

  const VendorMissingDetail: string := "The vendor folder is missing."
  const BinMissingDetail: string := "The bin folder is missing."

  /** checkFileExisting: nothing when the file exists and is readable, else the exception it throws. */
  function CheckFileExisting(fs: FileSystem, file: string): (r: Option<Error>)
    ensures r.None? <==> Exists(fs, file) && IsReadable(fs, file)
    ensures r.Some? ==> r.value.FileNotFound? && FileNotFoundDetail(r.value.message) == Some(NotReadableDetail(file))
  {
    if !Exists(fs, file) || !IsReadable(fs, file) then
      FileNotFoundDetailRoundTrip(NotReadableDetail(file));
      Some(FileNotFound(FileNotFoundMessage(NotReadableDetail(file))))
    else None
  }

  /**
   * getFileContent: the checks run in a fixed order. A missing or
   * unreadable file fails before anything is read; falsy contents ("" or
   * "0") fail as empty; then a decode error, or a decoded value that is
   * falsy though valid JSON, fails with the decoder's message; a truthy
   * value that is not an array breaks the declared `array` return type.
   * Only a non-empty array comes back.
   */
  function GetFileContent(fs: FileSystem, decode: string -> Decoded, file: string): (r: Result<Value, Error>)
    ensures (r.Failure? && r.error.FileNotFound?) <==> !IsReadable(fs, file)
    ensures !IsReadable(fs, file) ==> r == Failure(CheckFileExisting(fs, file).value)
    ensures (r.Failure? && r.error.EmptyFile?) <==> IsReadable(fs, file) && !StrTruthy(Read(fs, file))
    ensures r.Failure? && r.error.EmptyFile? ==> r.error.message == EmptyFileMessage(file)
    ensures (r.Failure? && r.error.Runtime?) <==>
              IsReadable(fs, file) && StrTruthy(Read(fs, file)) &&
              (decode(Read(fs, file)).Malformed? || !Truthy(decode(Read(fs, file)).value))
    ensures (r.Failure? && r.error.TypeError?) <==>
              IsReadable(fs, file) && StrTruthy(Read(fs, file)) && decode(Read(fs, file)).Parsed? &&
              Truthy(decode(Read(fs, file)).value) && !decode(Read(fs, file)).value.Arr?
    ensures r.Failure? && r.error.Runtime? ==>
              r.error.message == (if decode(Read(fs, file)).Malformed? then decode(Read(fs, file)).message else NoErrorMessage)
    ensures r.Success? ==> decode(Read(fs, file)) == Parsed(r.value) && r.value.Arr? && |r.value.entries| > 0
  {
    match CheckFileExisting(fs, file)
    case Some(e) => Failure(e)
    case None =>
      var json := Read(fs, file);
      if !StrTruthy(json) then Failure(EmptyFile(EmptyFileMessage(file)))
      else match decode(json)
        case Malformed(msg) => Failure(Runtime(msg))
        case Parsed(content) =>
          if !Truthy(content) then Failure(Runtime(NoErrorMessage))
          else if !content.Arr? then Failure(TypeError)
          else Success(content)
  }

  /** `$config[$key] ?? []` returned as `array`: the member, [] when absent, a TypeError for a non-array. */
  function ArrayOrEmpty(member: Option<Value>): (r: Result<Value, Error>)
    ensures r.Success? ==> r.value.Arr?
    ensures member.None? ==> r == Success(Arr([]))
    ensures member.Some? ==> (r.Success? <==> member.value.Arr?)
    ensures member.Some? && r.Success? ==> r.value == member.value
    ensures r.Failure? ==> r.error == TypeError
  {
    match member
    case None => Success(Arr([]))
    case Some(v) => if v.Arr? then Success(v) else Failure(TypeError)
  }

  /** `$config['config'][$name] ?? ...`: an override under the manifest's `config` section. */
  function Setting(config: Value, name: string): Option<Value> {
    match Lookup(config, "config")
    case Some(section) => Lookup(section, name)
    case None => None
  }

  /** An override returned as `string`: the default when absent, a TypeError for a non-string. */
  function PathOr(setting: Option<Value>, default: string): (r: Result<string, Error>)
    ensures setting.None? ==> r == Success(default)
    ensures setting.Some? ==> (r.Success? <==> setting.value.Str?)
    ensures setting.Some? && r.Success? ==> r.value == setting.value.s
    ensures r.Failure? ==> r.error == TypeError
  {
    match setting
    case None => Success(default)
    case Some(v) => if v.Str? then Success(v.s) else Failure(TypeError)
  }

  /** The lookup command `getBinary` hands to the shell: `where` when PHP_OS starts with "win" in any case. */
  function LookupCommand(os: string): (c: string)
    ensures c == "where" <==> StartsWithIgnoringCase(os, "win")
    ensures c == "where" || c == "which"
  {
    if StartsWithIgnoringCase(os, "win") then "where" else "which"
  }

  /** Sample OS names: the Windows family asks `where`, everything else `which`. */
  lemma LookupCommandExamples()
    ensures LookupCommand("WINNT") == "where" && LookupCommand("Windows") == "where"
    ensures LookupCommand("Darwin") == "which" && LookupCommand("Linux") == "which"
    ensures LookupCommand("wi") == "which"
  {
    assert "WINNT"[0] == 'W' && "WINNT"[1] == 'I' && "WINNT"[2] == 'N';
    assert "Windows"[0] == 'W' && "Windows"[1] == 'i' && "Windows"[2] == 'n';
    assert "win"[0] == 'w' && "win"[1] == 'i' && "win"[2] == 'n';
    assert "Darwin"[0] == 'D';
    assert "Linux"[0] == 'L';
  }

  /**
   * getOutdated after the application has run: `store` is what the
   * capture buffer drained. Only the last chunk is decoded; its `installed`
   * member is the answer, [] when it is absent or the chunk is not JSON. An
   * empty store passes null to `json_decode`, a TypeError under strict types.
   */
  function OutdatedFromStore(decode: string -> Decoded, store: seq<string>): (r: Result<Value, Error>)
    ensures store == [] ==> r == Failure(TypeError)
    ensures r.Success? ==> r.value.Arr?
    ensures store != [] && decode(store[|store| - 1]).Malformed? ==> r == Success(Arr([]))
    ensures store != [] && decode(store[|store| - 1]).Parsed? ==>
              r == ArrayOrEmpty(Lookup(decode(store[|store| - 1]).value, "installed"))
  {
    match ArrayPop(store).0
    case None => Failure(TypeError)
    case Some(json) =>
      var content := match decode(json) case Parsed(v) => v case Malformed(_) => Null;
      ArrayOrEmpty(Lookup(content, "installed"))
  }

  /** Only the last captured chunk matters: whatever came before it is ignored. */
  lemma OutdatedUsesLastChunk(decode: string -> Decoded, earlier: seq<string>, other: seq<string>, last: string)
    ensures OutdatedFromStore(decode, earlier + [last]) == OutdatedFromStore(decode, other + [last])
  {
    assert (earlier + [last])[|earlier + [last]| - 1] == last;
    assert (other + [last])[|other + [last]| - 1] == last;
  }

  /** A last chunk `{"installed": [p]}` yields the one-package list. */
  lemma OutdatedOfOnePackage(decode: string -> Decoded, store: seq<string>, chunk: string, p: Value)
    requires decode(chunk) == Parsed(Arr([(StrKey("installed"), Arr([(IntKey(0), p)]))]))
    ensures OutdatedFromStore(decode, store + [chunk]) == Success(Arr([(IntKey(0), p)]))
  {
    assert (store + [chunk])[|store + [chunk]| - 1] == chunk;
    assert Find(Arr([(StrKey("installed"), Arr([(IntKey(0), p)]))]).entries, StrKey("installed")) == Some(0);
  }

  /** The not-readable message never reads as either "folder is missing" message. */
  lemma NotReadableIsNotFolderMissing(file: string)
    ensures FileNotFoundMessage(NotReadableDetail(file)) != FileNotFoundMessage(VendorMissingDetail)
    ensures FileNotFoundMessage(NotReadableDetail(file)) != FileNotFoundMessage(BinMissingDetail)
  {
    assert NotReadableDetail(file)[0] == 'F';
    assert VendorMissingDetail[0] == 'T' && BinMissingDetail[0] == 'T';
    FileNotFoundDetailRoundTrip(NotReadableDetail(file));
    FileNotFoundDetailRoundTrip(VendorMissingDetail);
    FileNotFoundDetailRoundTrip(BinMissingDetail);
  }

  /**
   * getOutdated: a fresh capture buffer receives the application's writes
   * (`writes`, standing for the run of `composer outdated`) and is
   * drained; the drained store is post-processed by `OutdatedFromStore`.
   */
  method GetOutdated(decode: string -> Decoded, writes: seq<string>) returns (r: Result<Value, Error>)
    ensures r == OutdatedFromStore(decode, writes)
  {
    var output := new Output.ArrayOutput();
    Output.WriteAll(output, writes, true);
    var store := output.GetStore();
    r := OutdatedFromStore(decode, store);
  }

  class ComposerHelper {
    const basePath: string
    const defaultVendorPath: string := basePath + "/vendor"
    const defaultBinPath: string := defaultVendorPath + "/bin"

    /**
     * The path setup of the constructor: `path` loses every trailing '/';
     * the default vendor and bin paths hang below the result.
     */
    constructor (path: string)
      ensures basePath == RTrim(path, '/')
      ensures basePath <= path && (basePath == [] || basePath[|basePath| - 1] != '/')
      ensures forall i :: |basePath| <= i < |path| ==> path[i] == '/'
    {
      basePath := RTrim(path, '/');
    }

    /**
     * The constructor in full: after the path setup it fails with
     * FileNotFound when composer.json is missing or unreadable.
     */
    static method Create(fs: FileSystem, path: string) returns (r: Result<ComposerHelper, Error>)
      ensures r.Failure? <==> !IsReadable(fs, RTrim(path, '/') + "/composer.json")
      ensures r.Failure? ==> r.error == CheckFileExisting(fs, RTrim(path, '/') + "/composer.json").value
      ensures r.Success? ==> fresh(r.value) && r.value.basePath == RTrim(path, '/')
      ensures r.Success? ==> r.value.GetComposerConfigPath() == r.value.basePath + "/composer.json"
      ensures r.Success? ==> r.value.defaultVendorPath == r.value.basePath + "/vendor"
      ensures r.Success? ==> r.value.defaultBinPath == r.value.basePath + "/vendor/bin"
    {
      var helper := new ComposerHelper(path);
      match CheckFileExisting(fs, helper.GetComposerConfigPath()) {
        case Some(e) => r := Failure(e);
        case None => r := Success(helper);
      }
    }

    /** getComposerConfigPath. */
    function GetComposerConfigPath(): string {
      basePath + "/composer.json"
    }

    /** getComposerConfig. */
    function GetComposerConfig(fs: FileSystem, decode: string -> Decoded): Result<Value, Error> {
      GetFileContent(fs, decode, GetComposerConfigPath())
    }

    /** getRequirements: the manifest's `require`, or [] when absent. */
    function GetRequirements(fs: FileSystem, decode: string -> Decoded): (r: Result<Value, Error>)
      ensures GetComposerConfig(fs, decode).Failure? ==> r == Failure(GetComposerConfig(fs, decode).error)
      ensures GetComposerConfig(fs, decode).Success? ==>
                r == ArrayOrEmpty(Lookup(GetComposerConfig(fs, decode).value, "require"))
    {
      var config :- GetComposerConfig(fs, decode);
      ArrayOrEmpty(Lookup(config, "require"))
    }

    /** getDevRequirements: the manifest's `require-dev`, or [] when absent. */
    function GetDevRequirements(fs: FileSystem, decode: string -> Decoded): (r: Result<Value, Error>)
      ensures GetComposerConfig(fs, decode).Failure? ==> r == Failure(GetComposerConfig(fs, decode).error)
      ensures GetComposerConfig(fs, decode).Success? ==>
                r == ArrayOrEmpty(Lookup(GetComposerConfig(fs, decode).value, "require-dev"))
    {
      var config :- GetComposerConfig(fs, decode);
      ArrayOrEmpty(Lookup(config, "require-dev"))
    }

    /** getAllRequirements: `array_merge` of the two, either defaulting to []. */
    function GetAllRequirements(fs: FileSystem, decode: string -> Decoded): Result<Value, Error> {
      var config :- GetComposerConfig(fs, decode);
      var require := Lookup(config, "require").GetOr(Arr([]));
      var requireDev := Lookup(config, "require-dev").GetOr(Arr([]));
      if require.Arr? && requireDev.Arr? then Success(Arr(ArrayMerge(require.entries, requireDev.entries)))
      else Failure(TypeError)
    }

    /** getAllInstalled: always the default vendor path's composer/installed.json. */
    function GetAllInstalled(fs: FileSystem, decode: string -> Decoded): (r: Result<Value, Error>)
      ensures r == GetFileContent(fs, decode, basePath + "/vendor/composer/installed.json")
    {
      assert defaultVendorPath + "/composer/installed.json" == basePath + "/vendor/composer/installed.json";
      GetFileContent(fs, decode, defaultVendorPath + "/composer/installed.json")
    }

    /**
     * getVendorPath: `config.vendor-dir` verbatim when set, else the default;
     * its "vendor folder is missing" error is guarded by a falsy config,
     * which a successful read never yields.
     */
    function GetVendorPath(fs: FileSystem, decode: string -> Decoded): (r: Result<string, Error>)
      ensures GetComposerConfig(fs, decode).Failure? ==> r == Failure(GetComposerConfig(fs, decode).error)
      ensures GetComposerConfig(fs, decode).Success? ==>
                r == PathOr(Setting(GetComposerConfig(fs, decode).value, "vendor-dir"), defaultVendorPath)
    {
      var config :- GetComposerConfig(fs, decode);
      if !Truthy(config) && !IsDir(fs, defaultVendorPath) then
        Failure(FileNotFound(FileNotFoundMessage(VendorMissingDetail)))
      else PathOr(Setting(config, "vendor-dir"), defaultVendorPath)
    }

    /** getBinaryPath: `config.bin-dir` verbatim when set, else the default; same dead guard. */
    function GetBinaryPath(fs: FileSystem, decode: string -> Decoded): (r: Result<string, Error>)
      ensures GetComposerConfig(fs, decode).Failure? ==> r == Failure(GetComposerConfig(fs, decode).error)
      ensures GetComposerConfig(fs, decode).Success? ==>
                r == PathOr(Setting(GetComposerConfig(fs, decode).value, "bin-dir"), defaultBinPath)
    {
      var config :- GetComposerConfig(fs, decode);
      if !Truthy(config) && !IsDir(fs, defaultBinPath) then
        Failure(FileNotFound(FileNotFoundMessage(BinMissingDetail)))
      else PathOr(Setting(config, "bin-dir"), defaultBinPath)
    }

    /**
     * getBinary: `binaryPath/bin` when it exists, else the `where`/`which`
     * lookup of `bin`; failures of getBinaryPath pass through.
     */
    function GetBinary(fs: FileSystem, decode: string -> Decoded, os: string, bin: string): (r: Result<BinaryLocation, Error>)
      ensures GetBinaryPath(fs, decode).Failure? ==> r == Failure(GetBinaryPath(fs, decode).error)
      ensures GetBinaryPath(fs, decode).Success? && Exists(fs, GetBinaryPath(fs, decode).value + "/" + bin) ==>
                r == Success(LocalBinary(GetBinaryPath(fs, decode).value + "/" + bin))
      ensures GetBinaryPath(fs, decode).Success? && !Exists(fs, GetBinaryPath(fs, decode).value + "/" + bin) ==>
                r == Success(ShellLookup(LookupCommand(os) + " " + bin))
    {
      var command := LookupCommand(os);
      var binaryPath :- GetBinaryPath(fs, decode);
      if Exists(fs, binaryPath + "/" + bin) then Success(LocalBinary(binaryPath + "/" + bin))
      else Success(ShellLookup(command + " " + bin))
    }
    /**
     * getAllRequirements succeeds exactly when getRequirements and
     * getDevRequirements both do, and then merges their results.
     */
    lemma RequirementsMerge(fs: FileSystem, decode: string -> Decoded)
      ensures GetAllRequirements(fs, decode).Success? <==>
                GetRequirements(fs, decode).Success? && GetDevRequirements(fs, decode).Success?
      ensures GetAllRequirements(fs, decode).Success? ==>
                GetAllRequirements(fs, decode).value ==
                Arr(ArrayMerge(GetRequirements(fs, decode).value.entries, GetDevRequirements(fs, decode).value.entries))
      ensures GetAllRequirements(fs, decode).Failure? ==>
                GetAllRequirements(fs, decode).error ==
                (if GetComposerConfig(fs, decode).Failure? then GetComposerConfig(fs, decode).error else TypeError)
    {
    }

    /**
     * With unique string keys: getAllRequirements has the union of the two
     * key sets, a key of `require-dev` carries the dev value, a key only in
     * `require` keeps its value, and the `require` keys come first in their
     * order, followed by the dev-only entries in dev order.
     */
    lemma AllRequirementsDevWins(fs: FileSystem, decode: string -> Decoded)
      requires GetRequirements(fs, decode).Success? && GetDevRequirements(fs, decode).Success?
      requires StringKeyed(GetRequirements(fs, decode).value.entries)
      requires UniqueKeys(GetRequirements(fs, decode).value.entries)
      requires StringKeyed(GetDevRequirements(fs, decode).value.entries)
      requires UniqueKeys(GetDevRequirements(fs, decode).value.entries)
      ensures GetAllRequirements(fs, decode).Success?
      ensures var require, dev := GetRequirements(fs, decode).value.entries, GetDevRequirements(fs, decode).value.entries;
              var all := GetAllRequirements(fs, decode).value.entries;
              && UniqueKeys(all)
              && KeySet(all) == KeySet(require) + KeySet(dev)
              && (forall e :: e in dev ==> e in all)
              && (forall e :: e in require && !HasKey(dev, e.0) ==> e in all)
              && (forall e :: e in all ==> e in dev || (e in require && !HasKey(dev, e.0)))
              && all == Overridden(require, dev) + NewEntries(dev, require)
    {
      RequirementsMerge(fs, decode);
      var require, dev := GetRequirements(fs, decode).value.entries, GetDevRequirements(fs, decode).value.entries;
      ArrayMergeEntries(require, dev);
      ArrayMergeStringKeys(require, dev);
    }

    /** The "folder is missing" errors of getVendorPath and getBinaryPath are never raised. */
    lemma FolderMissingNeverRaised(fs: FileSystem, decode: string -> Decoded)
      ensures GetVendorPath(fs, decode) != Failure(FileNotFound(FileNotFoundMessage(VendorMissingDetail)))
      ensures GetBinaryPath(fs, decode) != Failure(FileNotFound(FileNotFoundMessage(BinMissingDetail)))
    {
    }

    /**
     * getAllInstalled depends on nothing but the entry at the default
     * vendor path's composer/installed.json: a `vendor-dir` override in the
     * manifest changes nothing.
     */
    lemma AllInstalledReadsDefaultPath(fs1: FileSystem, fs2: FileSystem, decode: string -> Decoded)
      requires SameEntry(fs1, fs2, defaultVendorPath + "/composer/installed.json")
      ensures GetAllInstalled(fs1, decode) == GetAllInstalled(fs2, decode)
    {
    }
  }
}
