/**
 * Where the client looks for the chat client's IPC socket (`get_socket_path`
 * in src-tauri/src/discord_rpc.rs, the Unix build).
 *
 * The directory is the first of `XDG_RUNTIME_DIR`, `TMPDIR` and the
 * platform temporary directory that is available as a string, else `/tmp`;
 * the socket is the file `discord-ipc-0` in it. Reading the environment is
 * ambient state, so the three candidates are inputs here.
 */
module SocketPath {
  import opened Base

  /** The socket's file name. */
  const IpcSocketName: string := "discord-ipc-0"

  /** The directory used when no candidate is available. */
  const FallbackDir: string := "/tmp"

  /**
   * The candidates, each None when it is unavailable: `env::var` fails for a
   * variable that is unset or not valid Unicode, and `to_str` fails for a
   * temporary directory that is not valid Unicode.
   */
  datatype Environment = Environment(
    xdgRuntimeDir: Option<string>,
    tmpDir: Option<string>,
    tempDir: Option<string>)

  /** The first available candidate, in order. */
  function FirstAvailable(candidates: seq<Option<string>>): (r: Option<string>)
    ensures r.Some? <==> exists i :: 0 <= i < |candidates| && candidates[i].Some?
    ensures r.Some? ==> exists i :: 0 <= i < |candidates| && candidates[i] == r
                                    && forall j :: 0 <= j < i ==> candidates[j].None?
  {
    if candidates == [] then None
    else if candidates[0].Some? then candidates[0]
    else
      var r := FirstAvailable(candidates[1..]);
      assert forall i :: 1 <= i < |candidates| ==> candidates[i] == candidates[1..][i - 1];
      r
  }

  /** `PathBuf::join` of a relative name: a separator is added unless the directory is empty or ends in one. */
  function Join(dir: string, name: string): (path: string)
    requires name != "" && name[0] != '/'
    ensures |path| == |dir| + |name| + (if dir == "" || dir[|dir| - 1] == '/' then 0 else 1)
    ensures path[..|dir|] == dir
    ensures path[|path| - |name|..] == name
    ensures dir != "" ==> path[|path| - |name| - 1] == '/'
  {
    if dir == "" || dir[|dir| - 1] == '/' then dir + name else dir + "/" + name
  }

  /** The directory `get_socket_path` chooses: the chain of `or_else` fallbacks, then `/tmp`. */
  function SocketDir(env: Environment): (dir: string)
    ensures dir == FallbackDir || Some(dir) in [env.xdgRuntimeDir, env.tmpDir, env.tempDir]
    ensures env.xdgRuntimeDir.Some? ==> dir == env.xdgRuntimeDir.value
  {
    if env.xdgRuntimeDir.Some? then env.xdgRuntimeDir.value
    else if env.tmpDir.Some? then env.tmpDir.value
    else if env.tempDir.Some? then env.tempDir.value
    else FallbackDir
  }

  /** The path of the IPC socket. */
  function SocketPathOf(env: Environment): (path: string)
    ensures |path| >= |SocketDir(env)| + |IpcSocketName|
    ensures path[|path| - |IpcSocketName|..] == IpcSocketName
    ensures path[..|SocketDir(env)|] == SocketDir(env)
  {
    Join(SocketDir(env), IpcSocketName)
  }

  /** The chosen directory is the first available candidate, or `/tmp` when there is none. */
  lemma SocketDirIsFirstAvailable(env: Environment)
    ensures SocketDir(env) == FirstAvailable([env.xdgRuntimeDir, env.tmpDir, env.tempDir]).GetOr(FallbackDir)
  {
    var c := [env.xdgRuntimeDir, env.tmpDir, env.tempDir];
    assert c[1..] == [env.tmpDir, env.tempDir] && c[1..][1..] == [env.tempDir] && c[1..][1..][1..] == [];
    assert FirstAvailable(c) == if c[0].Some? then c[0] else FirstAvailable(c[1..]);
    assert FirstAvailable(c[1..]) == if c[1].Some? then c[1] else FirstAvailable(c[1..][1..]);
    assert FirstAvailable(c[1..][1..]) == c[2];
  }

  /** With no candidate available the socket is `/tmp/discord-ipc-0`. */
  lemma FallbackSocketPath()
    ensures SocketPathOf(Environment(None, None, None)) == "/tmp/discord-ipc-0"
  {
  }

  /** A set but empty variable still wins, and leaves a relative path. */
  lemma EmptyRuntimeDir(tmp: Option<string>, temp: Option<string>)
    ensures SocketPathOf(Environment(Some(""), tmp, temp)) == IpcSocketName
  {
  }
}
