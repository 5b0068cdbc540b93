/** `src/fs.rs`: duplicate an executable under a fresh name next to the original
    and launch the copy, detached, on a freshly allocated port.

    Every effect is an input. An `Oracle` carries, for one provisioning attempt,
    the random hash, whether the byte copy fails, the port the allocator finds,
    and whether the operating system refuses to start the process. The model
    returns the effects attempted, in order, and how the call ended. */
module Provision {
  import opened Outcomes
  import Decimal
  import Hash
  import Paths
  import Ports

  datatype Oracle = Oracle(
    hash: string,
    copyError: Option<string>,
    freePort: Option<Ports.U16>,
    spawnError: Option<string>)

  /** The program, working directory and arguments a child is started with. */
  datatype LaunchSpec = LaunchSpec(program: string, workingDir: string, args: seq<string>)

  datatype Effect = Copy(source: string, destination: string) | Launch(spec: LaunchSpec)

  datatype Run = Run(effects: seq<Effect>, outcome: Outcome<string>)

  const CopyPrefix: string := "SUBPROCESS_"
  const AddressPrefix: string := "http://localhost:"
  const NoFileName: string := "No file name in path"
  const NoParent: string := "No parent directory in path"
  const SpawnFailed: string := "failed to spawn process"

  /** The original's stem, empty when the path has no file name. */
  function Stem(path: string): string
  {
    Paths.FileStem(path).GetOr("")
  }

  /** The original's extension with its dot, empty when there is none. */
  function DottedExtension(path: string): string
  {
    match Paths.Extension(path)
    case Some(e) => "." + e
    case None => ""
  }

  /** The copy's file name: `SUBPROCESS_<stem>_<hash><ext>`. */
  function CopyName(path: string, hash: string): string
  {
    CopyPrefix + Stem(path) + "_" + hash + DottedExtension(path)
  }

  /** The copy's full path: the original with its file name replaced. */
  function CopyPath(path: string, hash: string): string
  {
    Paths.WithFileName(path, CopyName(path, hash))
  }

  /** The address handed back for a child listening on `port`. */
  function Address(port: nat): string
  {
    AddressPrefix + Decimal.NatToString(port)
  }

  /** Reads a provisioned address back into its port. */
  function AddressPort(address: string): Option<nat>
  {
    if |address| > |AddressPrefix| && address[..|AddressPrefix|] == AddressPrefix
       && Decimal.Canonical(address[|AddressPrefix|..])
    then Some(Decimal.Value(address[|AddressPrefix|..]))
    else None
  }

  /** Reads a launch's single argument back into a port. */
  function PortArgument(spec: LaunchSpec): Option<nat>
  {
    if |spec.args| == 1 && Decimal.Canonical(spec.args[0]) then Some(Decimal.Value(spec.args[0])) else None
  }

  /** `run_new_sub`: find the copy's name and directory, allocate a port, and
      start the copy with the port as its only argument. */
  function RunNewSub(newPath: string, freePort: Option<Ports.U16>, spawnError: Option<string>): (r: Run)
    ensures r.outcome.Ok? <==>
      Paths.FileName(newPath).Some? && Paths.Parent(newPath).Some? && freePort.Some? && spawnError.None?
    ensures !r.outcome.Err?
    ensures |r.effects| <= 1
    ensures forall i :: 0 <= i < |r.effects| ==>
      && r.effects[i].Launch?
      && r.effects[i].spec.program == newPath
      && Paths.Parent(newPath).Some? && r.effects[i].spec.workingDir == Paths.Parent(newPath).value
      && freePort.Some? && PortArgument(r.effects[i].spec) == Some(freePort.value)
    ensures r.outcome.Ok? ==> |r.effects| == 1 && AddressPort(r.outcome.value) == Some(freePort.value)
  {
    match Paths.FileName(newPath)
    case None => Run([], Panic(NoFileName))
    case Some(_) =>
      match Paths.Parent(newPath)
      case None => Run([], Panic(NoParent))
      case Some(workingDir) =>
        var port := Ports.GetFreePort(freePort);
        if !port.Ok? then Run([], Panic(port.message))
        else
          var arg := Decimal.NatToString(port.value);
          Decimal.ValueOfNatToString(port.value);
          AddressPortOfAddress(port.value);
          var launch := Launch(LaunchSpec(newPath, workingDir, [arg]));
          match spawnError
          case Some(e) => Run([launch], Panic(SpawnFailed + ": " + e))
          case None => Run([launch], Ok(Address(port.value)))
  }

  /** `create_new_file_copy`: derive the copy's path, copy the bytes (returning
      the error if that fails), then launch the copy. */
  function CreateNewFileCopy(path: string, o: Oracle): (r: Run)
    requires Hash.IsHash(o.hash)
    ensures |r.effects| >= 1 && r.effects[0] == Copy(path, CopyPath(path, o.hash))
    ensures r.outcome.Err? <==> o.copyError.Some?
    ensures o.copyError.Some? ==> r == Run([Copy(path, CopyPath(path, o.hash))], Err(o.copyError.value))
    ensures forall i :: 1 <= i < |r.effects| ==> r.effects[i].Launch? && r.effects[i].spec.program == CopyPath(path, o.hash)
  {
    var destination := CopyPath(path, o.hash);
    match o.copyError
    case Some(e) => Run([Copy(path, destination)], Err(e))
    case None =>
      var launched := RunNewSub(destination, o.freePort, o.spawnError);
      Run([Copy(path, destination)] + launched.effects, launched.outcome)
  }

  /** The address names the port it was built from. */
  lemma AddressPortOfAddress(port: nat)
    ensures AddressPort(Address(port)) == Some(port)
  {
    var a := Address(port);
    assert a[..|AddressPrefix|] == AddressPrefix;
    assert a[|AddressPrefix|..] == Decimal.NatToString(port);
    Decimal.ValueOfNatToString(port);
  }

  /** The stem and the extension come from one file name, so neither holds a
      separator. */
  lemma PartsHaveNoSeparator(path: string)
    ensures Paths.Separator !in Stem(path)
    ensures Paths.Separator !in DottedExtension(path)
  {
    Paths.StemAndExtension(path);
    if Paths.FileName(path).Some? {
      Paths.FileNameIsValid(path);
      var f := Paths.FileName(path).value;
      var stem := Stem(path);
      if Paths.Extension(path).Some? {
        var e := Paths.Extension(path).value;
        assert f == stem + "." + e;
        assert stem == f[..|stem|] && e == f[|stem| + 1..];
        assert DottedExtension(path) == "." + e;
      }
    }
  }

  /** The copy name is a single valid file name: it cannot hold a separator
      because the stem and extension come from one component and the hash is
      alphanumeric. */
  lemma CopyNameIsValid(path: string, hash: string)
    requires Hash.IsHash(hash)
    ensures Paths.ValidFileName(CopyName(path, hash))
  {
    var name := CopyName(path, hash);
    PartsHaveNoSeparator(path);
    assert Paths.Separator !in hash by {
      forall j | 0 <= j < |hash| ensures hash[j] != Paths.Separator {
        assert Hash.IsAlphanumeric(hash[j]);
      }
    }
    assert name[0] == 'S';
  }

  /** The copy gets exactly the derived name and lives in the original's directory. */
  lemma CopySitsBesideOriginal(path: string, hash: string)
    requires Hash.IsHash(hash)
    ensures Paths.FileName(CopyPath(path, hash)) == Some(CopyName(path, hash))
    ensures Paths.Parent(CopyPath(path, hash)).Some?
    ensures Paths.FileName(path).Some? ==> Paths.Parent(CopyPath(path, hash)) == Paths.Parent(path)
  {
    CopyNameIsValid(path, hash);
    Paths.WithFileNameKeepsDirectory(path, CopyName(path, hash));
  }

  /** The copy's name in terms of the original's file name `f`: with an extension
      `e` (so `f == s + "." + e`) it is `SUBPROCESS_<s>_<hash>.<e>`; without one it is
      `SUBPROCESS_<f>_<hash>`; without a file name the stem part is empty. */
  lemma CopyNameFromFileName(path: string, hash: string)
    ensures Paths.FileName(path).None? ==> CopyName(path, hash) == CopyPrefix + "_" + hash
    ensures Paths.FileName(path).Some? && Paths.Extension(path).None? ==>
      CopyName(path, hash) == CopyPrefix + Paths.FileName(path).value + "_" + hash
    ensures Paths.Extension(path).Some? ==>
      exists s :: Paths.FileName(path) == Some(s + "." + Paths.Extension(path).value)
        && CopyName(path, hash) == CopyPrefix + s + "_" + hash + "." + Paths.Extension(path).value
  {
    Paths.StemAndExtension(path);
    if Paths.Extension(path).Some? {
      var s := Paths.FileStem(path).value;
      assert Paths.FileName(path) == Some(s + "." + Paths.Extension(path).value);
    }
  }

  /** A copy keeps the original's extension, and its stem is the prefix, the
      original stem and the hash. */
  lemma CopyKeepsExtension(path: string, hash: string)
    requires Hash.IsHash(hash)
    requires Paths.Extension(path).Some?
    ensures Paths.Extension(CopyPath(path, hash)) == Paths.Extension(path)
    ensures Paths.FileStem(CopyPath(path, hash)) == Some(CopyPrefix + Stem(path) + "_" + hash)
  {
    CopySitsBesideOriginal(path, hash);
    Paths.StemAndExtension(path);
    var e := Paths.Extension(path).value;
    var base := CopyPrefix + Stem(path) + "_" + hash;
    assert CopyName(path, hash) == base + "." + e;
    Paths.StemAndExtensionOf(CopyPath(path, hash), base, e);
  }

  /** After a successful copy the run is: copy, then (once a port is found) a launch
      of the copy from its own directory with the port as the only argument; it
      ends with the address of that same port unless the spawn fails. The
      "no file name" and "no parent" panics of `run_new_sub` cannot happen here. */
  lemma ProvisionAfterCopy(path: string, o: Oracle)
    requires Hash.IsHash(o.hash) && o.copyError.None?
    ensures var r := CreateNewFileCopy(path, o);
      && (r.outcome.Ok? <==> o.freePort.Some? && o.spawnError.None?)
      && (o.freePort.None? ==> r == Run([Copy(path, CopyPath(path, o.hash))], Panic(Ports.UnwrapNone)))
      && (o.freePort.Some? ==>
        && |r.effects| == 2
        && r.effects[1].Launch?
        && r.effects[1].spec.program == CopyPath(path, o.hash)
        && Some(r.effects[1].spec.workingDir) == Paths.Parent(CopyPath(path, o.hash))
        && (Paths.FileName(path).Some? ==> Some(r.effects[1].spec.workingDir) == Paths.Parent(path))
        && PortArgument(r.effects[1].spec) == Some(o.freePort.value))
      && (r.outcome.Ok? ==> AddressPort(r.outcome.value) == Some(o.freePort.value))
      && (o.freePort.Some? && o.spawnError.Some? ==> r.outcome == Panic(SpawnFailed + ": " + o.spawnError.value))
  {
    var destination := CopyPath(path, o.hash);
    CopySitsBesideOriginal(path, o.hash);
    var launched := RunNewSub(destination, o.freePort, o.spawnError);
    assert CreateNewFileCopy(path, o) == Run([Copy(path, destination)] + launched.effects, launched.outcome);
  }

  /** When the configured executable is a bare file name, its copy is a bare
      name too, and the launch is asked to run in the empty directory path. */
  lemma BareNameLaunchesFromEmptyDirectory(name: string, o: Oracle)
    requires Hash.IsHash(o.hash) && o.copyError.None? && o.freePort.Some?
    requires Paths.ValidFileName(name)
    ensures var r := CreateNewFileCopy(name, o);
      |r.effects| == 2 && r.effects[1].Launch? && r.effects[1].spec.workingDir == ""
  {
    Paths.BareNameIsFileName(name);
    ProvisionAfterCopy(name, o);
  }
}
