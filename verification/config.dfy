/** Path configuration (`src/config.py`): which vault root to use and the
    layout of files under it. The process environment is passed in as a
    map from variable names to values. */
module Config {
  import opened Common
  import opened Paths

  const VaultRootEnvVar: string := "PERDOCMAN_VAULT_ROOT"
  const DefaultVaultRoot: Path := "vault"

  /** `AppPaths`: the vault root and the three entries the application keeps in it. */
  datatype AppPaths = AppPaths(vaultRoot: Path, dbPath: Path, documentsDir: Path, logsDir: Path)

  /** `os.getenv(name)` followed by the truth test `if env:`: the value
      counts only when the variable is set and not empty. */
  function UsableEnv(env: map<string, string>): (r: Option<Path>)
    ensures r.Some? <==> VaultRootEnvVar in env && env[VaultRootEnvVar] != ""
    ensures r.Some? ==> r.value == env[VaultRootEnvVar]
  {
    if VaultRootEnvVar in env && env[VaultRootEnvVar] != "" then Some(env[VaultRootEnvVar]) else None
  }

  /** `resolve_vault_root`: an explicit argument first, then the
      environment variable, then `vault`. */
  function ResolveVaultRoot(explicit: Option<Path>, env: map<string, string>): (r: Path)
    ensures explicit.Some? ==> r == explicit.value
    ensures explicit.None? && UsableEnv(env).Some? ==> r == env[VaultRootEnvVar]
    ensures explicit.None? && UsableEnv(env).None? ==> r == "vault"
  {
    if explicit.Some? then explicit.value
    else if UsableEnv(env).Some? then UsableEnv(env).value
    else DefaultVaultRoot
  }

  /** The first candidate that is present, or the fallback. */
  function FirstPresent(candidates: seq<Option<Path>>, fallback: Path): Path {
    if candidates == [] then fallback
    else if candidates[0].Some? then candidates[0].value
    else FirstPresent(candidates[1..], fallback)
  }

  /** The priority rule read as a list: the result is the first usable
      source among the explicit argument and the environment, else `vault`. */
  lemma ResolveIsFirstUsable(explicit: Option<Path>, env: map<string, string>)
    ensures ResolveVaultRoot(explicit, env) == FirstPresent([explicit, UsableEnv(env)], DefaultVaultRoot)
  {
    var cands := [explicit, UsableEnv(env)];
    assert cands[1..] == [UsableEnv(env)] && cands[1..][1..] == [];
    assert FirstPresent(cands[1..][1..], DefaultVaultRoot) == DefaultVaultRoot;
    assert FirstPresent(cands[1..], DefaultVaultRoot)
        == if UsableEnv(env).Some? then UsableEnv(env).value else DefaultVaultRoot;
  }

  /** The explicit argument wins whatever the environment holds, and an
      empty environment value is the same as an unset one. */
  lemma EnvironmentPriority(explicit: Path, env: map<string, string>, other: map<string, string>)
    ensures ResolveVaultRoot(Some(explicit), env) == ResolveVaultRoot(Some(explicit), other)
    ensures ResolveVaultRoot(None, env[VaultRootEnvVar := ""]) == ResolveVaultRoot(None, env - {VaultRootEnvVar})
    ensures ResolveVaultRoot(None, env[VaultRootEnvVar := ""]) == "vault"
  {
  }

  /** `build_paths`: the resolved root and its children `perdocman.db`,
      `documents` and `logs`. Each is a direct child of the root with that
      name, so the three are distinct. */
  function BuildPaths(vaultRoot: Option<Path>, env: map<string, string>): (r: AppPaths)
    ensures r.vaultRoot == ResolveVaultRoot(vaultRoot, env)
    ensures Parent(r.dbPath) == r.vaultRoot && Name(r.dbPath) == "perdocman.db"
    ensures Parent(r.documentsDir) == r.vaultRoot && Name(r.documentsDir) == "documents"
    ensures Parent(r.logsDir) == r.vaultRoot && Name(r.logsDir) == "logs"
    ensures r.dbPath != r.documentsDir && r.documentsDir != r.logsDir && r.dbPath != r.logsDir
  {
    var vr := ResolveVaultRoot(vaultRoot, env);
    var db, docs, logs := Join(vr, "perdocman.db"), Join(vr, "documents"), Join(vr, "logs");
    assert '/' !in "perdocman.db" && '/' !in "documents" && '/' !in "logs";
    assert Name(db) == "perdocman.db" && Name(docs) == "documents" && Name(logs) == "logs";
    AppPaths(vr, db, docs, logs)
  }
}
