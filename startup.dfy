/**
 * `BrowserClient::build` and `create_firefox_profile`: a straight-line
 * sequence of effectful steps, each followed by `?`, so the first failure
 * is returned and no later step runs.
 *
 * Every effect (spawning a process, looking up `geckodriver`, touching the
 * filesystem, connecting to the driver) is an oracle: the environment says
 * whether it succeeds and, for a spawn, which process id it gets.
 */
module Startup {
  import opened Wrappers
  import opened FailFast
  import opened PidRegistry

  // ---------------------------------------------------------------------------
  // create_firefox_profile
  // ---------------------------------------------------------------------------

  /** The steps of profile creation, in the order they run. */
  datatype ProfileStep =
    | MakeTempDir        // tempfile::tempdir()
    | WriteUserPrefs     // write user.js
    | MakeExtensionsDir  // create_dir_all(extensions)
    | CheckExtension     // ./resources/buster.xpi exists
    | CopyExtension      // copy it to extensions/buster@dessant.xpi

  const ProfileOrder: seq<ProfileStep> :=
    [MakeTempDir, WriteUserPrefs, MakeExtensionsDir, CheckExtension, CopyExtension]

  /** Which profile steps the filesystem lets succeed. */
  datatype ProfileEnv = ProfileEnv(
    tempDirOk: bool,
    userPrefsOk: bool,
    extensionsDirOk: bool,
    extensionPresent: bool,
    copyOk: bool)

  /** Step i of `ProfileOrder` succeeds exactly when `ProfileOutcomes(env)[i]`. */
  function ProfileOutcomes(env: ProfileEnv): (oks: seq<bool>)
    ensures |oks| == |ProfileOrder|
  {
    [env.tempDirOk, env.userPrefsOk, env.extensionsDirOk, env.extensionPresent, env.copyOk]
  }

  /**
   * Profile creation.  It returns the step that failed, or success after
   * copying the extension; the existence check always comes before the copy.
   */
  method CreateFirefoxProfile(env: ProfileEnv) returns (r: Result<(), ProfileStep>, steps: seq<ProfileStep>)
    ensures StoppedAtFirstFailure(ProfileOutcomes(env), |steps|, r.Success?)
    ensures steps == ProfileOrder[..|steps|]
    ensures r.Failure? ==> r.error == steps[|steps| - 1]
    ensures r.Success? <==> AllOk(ProfileOutcomes(env))
    ensures CopyExtension in steps ==> env.extensionPresent
  {
    steps := [MakeTempDir];
    if !env.tempDirOk {
      return Failure(MakeTempDir), steps;
    }
    steps := steps + [WriteUserPrefs];
    if !env.userPrefsOk {
      return Failure(WriteUserPrefs), steps;
    }
    steps := steps + [MakeExtensionsDir];
    if !env.extensionsDirOk {
      return Failure(MakeExtensionsDir), steps;
    }
    steps := steps + [CheckExtension];
    if !env.extensionPresent {
      return Failure(CheckExtension), steps;
    }
    steps := steps + [CopyExtension];
    if !env.copyOk {
      return Failure(CopyExtension), steps;
    }
    r := Success(());
  }

  /**
   * A missing extension fails profile creation at the existence check:
   * user.js and extensions/ have been made, the copy never runs.
   */
  lemma MissingExtensionStopsBeforeCopy(env: ProfileEnv, n: nat, ok: bool)
    requires env.tempDirOk && env.userPrefsOk && env.extensionsDirOk && !env.extensionPresent
    requires StoppedAtFirstFailure(ProfileOutcomes(env), n, ok)
    ensures !ok
    ensures ProfileOrder[..n] == [MakeTempDir, WriteUserPrefs, MakeExtensionsDir, CheckExtension]
  {
    var oks := ProfileOutcomes(env);
    NothingAfterFailure(oks, n, ok, 3);
  }

  // ---------------------------------------------------------------------------
  // build
  // ---------------------------------------------------------------------------

  /** The stages of `build`, in the order they run. */
  datatype Stage =
    | SpawnXvfb
    | SpawnX11vnc
    | CreateProfile
    | LocateGeckodriver
    | SpawnGeckodriver
    | ConnectDriver
    | WriteRegistry

  const StartupOrder: seq<Stage> :=
    [SpawnXvfb, SpawnX11vnc, CreateProfile, LocateGeckodriver, SpawnGeckodriver, ConnectDriver, WriteRegistry]

  /** What the operating system and the driver do: a spawn gives a process id or fails. */
  datatype StartupEnv = StartupEnv(
    xvfb: Option<u32>,
    x11vnc: Option<u32>,
    profile: ProfileEnv,
    geckodriverOnPath: bool,
    driver: Option<u32>,
    connectOk: bool,
    registryWriteOk: bool)

  /** Stage i of `StartupOrder` succeeds exactly when `StartupOutcomes(env)[i]`. */
  function StartupOutcomes(env: StartupEnv): (oks: seq<bool>)
    ensures |oks| == |StartupOrder|
  {
    [env.xvfb.Some?, env.x11vnc.Some?, AllOk(ProfileOutcomes(env.profile)), env.geckodriverOnPath,
     env.driver.Some?, env.connectOk, env.registryWriteOk]
  }

  /** Why `build` failed: the stage, or for the profile, the profile step. */
  datatype StartupError = StageFailed(stage: Stage) | ProfileFailed(step: ProfileStep)

  /** A started browser client: the three child processes (the driver connection and the profile directory are not modelled). */
  datatype Session = Session(pids: Pids)

  /**
   * Start-up.  It runs the stages in order and stops at the first failure,
   * so the registry is written only once both spawns, the profile, the
   * driver lookup, the driver spawn and the connection have all succeeded,
   * and then with the ids in the order geckodriver, Xvfb, x11vnc.
   */
  method Build(env: StartupEnv)
    returns (r: Result<Session, StartupError>, stages: seq<Stage>, profileSteps: seq<ProfileStep>, registryWrite: Option<string>)
    ensures StoppedAtFirstFailure(StartupOutcomes(env), |stages|, r.Success?)
    ensures stages == StartupOrder[..|stages|]
    ensures r.Failure? && stages[|stages| - 1] != CreateProfile ==> r.error == StageFailed(stages[|stages| - 1])
    ensures profileSteps != [] <==> CreateProfile in stages
    ensures profileSteps != [] ==>
      && StoppedAtFirstFailure(ProfileOutcomes(env.profile), |profileSteps|, AllOk(ProfileOutcomes(env.profile)))
      && profileSteps == ProfileOrder[..|profileSteps|]
    ensures r.Failure? && stages[|stages| - 1] == CreateProfile ==>
      profileSteps != [] && r.error == ProfileFailed(profileSteps[|profileSteps| - 1])
    ensures registryWrite.Some? <==> WriteRegistry in stages
    ensures registryWrite.Some? ==>
      && env.xvfb.Some? && env.x11vnc.Some? && AllOk(ProfileOutcomes(env.profile))
      && env.geckodriverOnPath && env.driver.Some? && env.connectOk
      && registryWrite.value == FormatRegistry(Pids(env.driver.value, env.xvfb.value, env.x11vnc.value))
    ensures r.Success? ==>
      env.driver.Some? && env.xvfb.Some? && env.x11vnc.Some? &&
      r.value == Session(Pids(env.driver.value, env.xvfb.value, env.x11vnc.value))
    ensures r.Success? ==> registryWrite.Some? && ReadRegistry(registryWrite.value) == Success(r.value.pids)
  {
    stages, profileSteps, registryWrite := [SpawnXvfb], [], None;
    if env.xvfb.None? {
      return Failure(StageFailed(SpawnXvfb)), stages, profileSteps, registryWrite;
    }
    var xvfb := env.xvfb.value;

    stages := stages + [SpawnX11vnc];
    assert stages == StartupOrder[..2];
    if env.x11vnc.None? {
      return Failure(StageFailed(SpawnX11vnc)), stages, profileSteps, registryWrite;
    }
    var x11vnc := env.x11vnc.value;

    stages := stages + [CreateProfile];
    assert stages == StartupOrder[..3];
    var profile;
    profile, profileSteps := CreateFirefoxProfile(env.profile);
    if profile.Failure? {
      return Failure(ProfileFailed(profile.error)), stages, profileSteps, registryWrite;
    }

    stages := stages + [LocateGeckodriver];
    assert stages == StartupOrder[..4];
    if !env.geckodriverOnPath {
      return Failure(StageFailed(LocateGeckodriver)), stages, profileSteps, registryWrite;
    }

    stages := stages + [SpawnGeckodriver];
    assert stages == StartupOrder[..5];
    if env.driver.None? {
      return Failure(StageFailed(SpawnGeckodriver)), stages, profileSteps, registryWrite;
    }
    var driver := env.driver.value;

    // sleep(2 s) before connecting
    stages := stages + [ConnectDriver];
    assert stages == StartupOrder[..6];
    if !env.connectOk {
      return Failure(StageFailed(ConnectDriver)), stages, profileSteps, registryWrite;
    }

    var pids := Pids(driver, xvfb, x11vnc);
    stages := stages + [WriteRegistry];
    assert stages == StartupOrder[..7];
    registryWrite := Some(FormatRegistry(pids));
    if !env.registryWriteOk {
      return Failure(StageFailed(WriteRegistry)), stages, profileSteps, registryWrite;
    }
    assert ReadRegistry(registryWrite.value) == Success(pids) by {
      RegistryRoundTrip(pids);
    }
    r := Success(Session(pids));
  }

  /**
   * A missing extension aborts start-up at profile creation, after both
   * display processes were spawned and before the driver is looked up: the
   * registry is never written.
   */
  lemma MissingExtensionAbortsStartup(env: StartupEnv, n: nat, ok: bool)
    requires env.xvfb.Some? && env.x11vnc.Some? && !env.profile.extensionPresent
    requires StoppedAtFirstFailure(StartupOutcomes(env), n, ok)
    ensures !ok && n == 3
    ensures WriteRegistry !in StartupOrder[..n]
  {
    var oks := StartupOutcomes(env);
    assert !AllOk(ProfileOutcomes(env.profile)) by {
      assert !ProfileOutcomes(env.profile)[3];
    }
    NothingAfterFailure(oks, n, ok, 2);
  }
}
