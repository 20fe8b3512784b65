/**
 * `ebay_signin`: a fixed fail-fast sequence of WebDriver calls, with the
 * captcha wait between the navigation and the first form field.  Each
 * WebDriver call is an oracle that succeeds or fails; the URL samples for
 * the captcha wait come from the environment as in `Captcha`.
 */
module SignInFlow {
  import opened Wrappers
  import opened FailFast
  import opened Captcha

  /** The steps of the sign-in, in the order they run. */
  datatype SignInStep =
    | Navigate        // goto the sign-in page
    | WaitForCaptcha  // wait_if_captcha_detected
    | FindEmailField  // wait for #userid
    | TypeEmail       // send_keys(email)
    | FindContinue    // find #signin-continue-btn
    | ClickContinue   // click it

  const SignInOrder: seq<SignInStep> :=
    [Navigate, WaitForCaptcha, FindEmailField, TypeEmail, FindContinue, ClickContinue]

  /** What the browser does: which calls succeed, and the URLs `current_url()` returns. */
  datatype SignInEnv = SignInEnv(
    navigateOk: bool,
    urls: seq<UrlSample>,
    emailFieldFound: bool,
    typeOk: bool,
    continueFound: bool,
    clickOk: bool)

  /** The captcha wait, which runs only after a successful navigation, returns. */
  predicate WaitReturns(env: SignInEnv) {
    env.navigateOk ==> Settles(env.urls)
  }

  /** Step i of `SignInOrder` succeeds exactly when `SignInOutcomes(env)[i]`. */
  ghost function SignInOutcomes(env: SignInEnv): (oks: seq<bool>)
    requires WaitReturns(env)
    ensures |oks| == |SignInOrder|
  {
    [env.navigateOk, env.navigateOk ==> WaitSucceeds(env.urls), env.emailFieldFound, env.typeOk,
     env.continueFound, env.clickOk]
  }

  /**
   * The sign-in.  It stops at the first failing step and returns it; the
   * e-mail is typed only after the captcha wait has returned `Ok`.  The
   * password is accepted and not used.
   */
  method EbaySignIn(env: SignInEnv, email: string, password: string)
    returns (r: Result<(), SignInStep>, steps: seq<SignInStep>, typed: Option<string>, sleeps: nat)
    requires WaitReturns(env)
    ensures StoppedAtFirstFailure(SignInOutcomes(env), |steps|, r.Success?)
    ensures steps == SignInOrder[..|steps|]
    ensures r.Failure? ==> r.error == steps[|steps| - 1]
    ensures typed.Some? <==> TypeEmail in steps
    ensures typed.Some? ==> typed.value == email && env.navigateOk && WaitSucceeds(env.urls)
    ensures WaitForCaptcha !in steps ==> sleeps == 0
    ensures env.navigateOk && env.urls[0].Url? && IsCaptcha(env.urls[0].text) ==> IsFirstExit(env.urls, sleeps)
    ensures env.navigateOk && !(env.urls[0].Url? && IsCaptcha(env.urls[0].text)) ==> sleeps == 0
  {
    steps, typed, sleeps := [Navigate], None, 0;
    if !env.navigateOk {
      return Failure(Navigate), steps, typed, sleeps;
    }
    // sleep(2 s) for the page to settle
    steps := steps + [WaitForCaptcha];
    var waited;
    waited, sleeps := WaitIfCaptchaDetected(env.urls);
    if waited.Failure? {
      return Failure(WaitForCaptcha), steps, typed, sleeps;
    }
    steps := steps + [FindEmailField];
    if !env.emailFieldFound {
      return Failure(FindEmailField), steps, typed, sleeps;
    }
    steps := steps + [TypeEmail];
    typed := Some(email);
    if !env.typeOk {
      return Failure(TypeEmail), steps, typed, sleeps;
    }
    steps := steps + [FindContinue];
    if !env.continueFound {
      return Failure(FindContinue), steps, typed, sleeps;
    }
    steps := steps + [ClickContinue];
    if !env.clickOk {
      return Failure(ClickContinue), steps, typed, sleeps;
    }
    r := Success(());
  }

  /** A failing navigation ends the sign-in before the captcha wait and before any form field. */
  lemma NavigationFailureStopsEverything(env: SignInEnv, n: nat, ok: bool)
    requires !env.navigateOk
    requires StoppedAtFirstFailure(SignInOutcomes(env), n, ok)
    ensures n == 1 && !ok
  {
    NothingAfterFailure(SignInOutcomes(env), n, ok, 0);
  }
}
