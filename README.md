# Browser-session lifecycle of the eBay bot, modelled in Dafny

This project models the sequential core of `src/client.rs` of the eBay bot:
the `BrowserClient` that starts a virtual display (Xvfb), a VNC server
(x11vnc) and geckodriver, records their process ids in the PID registry
`/tmp/ebay_driver_pids`, waits out captcha pages during sign-in, and tears
the processes down again from the registry in a later, separate run.

Every operating-system and WebDriver effect is an oracle: the model is told
whether a spawn, a filesystem call, a WebDriver call or a `kill -9` succeeds
(and which pid a spawn gets, or which URL `current_url()` returns), and it
records what the code does in return as a trace.

| file | module | models |
|---|---|---|
| `wrappers.dfy` | `Wrappers` | `Option`, `Result` |
| `failfast.dfy` | `FailFast` | the meaning of a chain of `?`: steps run in order up to the first failure |
| `registry.dfy` | `PidRegistry` | `u32`, its `{}` formatting and `parse::<u32>()`, `str::lines()`, the registry text written by `build` and read by `teardown` |
| `teardown.dfy` | `TeardownController` | `BrowserClient::teardown`: kill requests, per-process log lines, removal |
| `captcha.dfy` | `Captcha` | the lowercase `contains("captcha")` test and the `wait_if_captcha_detected` poll loop |
| `startup.dfy` | `Startup` | `create_firefox_profile` and `BrowserClient::build` as fail-fast step sequences |
| `signin.dfy` | `SignInFlow` | `ebay_signin` as a fail-fast step sequence around the captcha wait |

A malformed registry entry aborts the whole teardown: `teardown` applies
`?` to each of the three parses, so the first entry that is not a `u32`
ends it with that entry's error before any process is killed and before
the file is removed, even when the other entries are valid ids
(`PidRegistry.BadMiddleLineRejected`, and `TeardownController.Teardown`'s
second postcondition).  There is no per-entry recovery.

## Model

| member | source | states |
|---|---|---|
| `PidRegistry.Decimal` | src/client.rs:84 | `{}` of a number is one or more ASCII digits with no leading zero except "0" itself |
| `PidRegistry.ParseU32` | src/client.rs:224-228 | a `u32` parse accepts only an optional '+' followed by one or more digits (so the text ends in a digit), and its value is that of the digits after the sign |
| `PidRegistry.ParseDecimal` | src/client.rs:224-228 | parsing the decimal text of any `u32` gives that `u32` back |
| `PidRegistry.ParseRejectsOverflow` | src/client.rs:224-228 | a decimal number of 2^32 or more is rejected, not wrapped |
| `PidRegistry.ParseSign` | src/client.rs:224-228 | a leading '+' is accepted and ignored; a leading '-' is rejected |
| `PidRegistry.NonDigitRejected` | src/client.rs:224-228 | a line holding any character other than a digit, apart from one leading '+', is not a valid id: letters, spaces and a '-' are all rejected |
| `PidRegistry.LoneSignRejected` | src/client.rs:224-228 | a sign with no digits after it is not a valid id |
| `PidRegistry.LineEnd` | src/client.rs:222 | finds the first '\n', or the end of the text when there is none |
| `PidRegistry.Lines` | src/client.rs:222 | `lines()` yields no line containing '\n', and no lines at all exactly for empty text |
| `PidRegistry.LinesOfTerminated` | src/client.rs:222 | a '\n'-terminated line comes out of `lines()` unchanged, followed by the lines of the rest |
| `PidRegistry.LinesAppend` | src/client.rs:222 | `lines()` of text ending in '\n' followed by more text is the lines of the first part followed by the lines of the rest |
| `PidRegistry.ReadRegistry` | src/client.rs:222-238 | reading succeeds exactly when the first three entries (a missing one read as "0") parse, yielding them in the order geckodriver, Xvfb, x11vnc; otherwise it fails naming the first entry that does not parse |
| `PidRegistry.FormatRegistry` | src/client.rs:84 | the registry text ends in '\n' and its lines are the three decimal ids in the order driver, Xvfb, x11vnc |
| `PidRegistry.Entry` | src/client.rs:224-238 | the i-th entry is the i-th line while there is one, and a text that parses as id 0 once the lines have run out |
| `PidRegistry.RegistryRoundTrip` | src/client.rs:84-85 | reading back the text `build` writes gives exactly the three ids it was written from, in order |
| `PidRegistry.ExtraLinesIgnored` | src/client.rs:222-238 | lines after the third are never read: anything appended to the written registry changes nothing |
| `PidRegistry.EmptyRegistryReadsZero` | src/client.rs:224-238 | an empty registry reads as three ids of 0 |
| `PidRegistry.OneLineRegistry` | src/client.rs:229-238 | with only the driver line present, the Xvfb and x11vnc entries read as 0 |
| `PidRegistry.TwoLineRegistry` | src/client.rs:234-238 | with two lines present, the x11vnc entry reads as 0 |
| `PidRegistry.DecimalOfThreeDigits` | src/client.rs:84 | a three-digit id is written as its three digits |
| `PidRegistry.ReadsExampleRegistry` | src/client.rs:222-238 | "101\n202\n303\n" reads as geckodriver 101, Xvfb 202, x11vnc 303 |
| `PidRegistry.BadMiddleLineRejected` | src/client.rs:229-233 | a malformed Xvfb line fails the whole read with the Xvfb error, though the lines around it are valid |
| `PidRegistry.EmptyLineRejected` | src/client.rs:224-228 | a blank first line fails the read with the geckodriver error |
| `TeardownController.KillRequests` | src/client.rs:240-246 | no more kill requests than listed processes, each one a kill of a non-zero id |
| `TeardownController.KillRequestsExact` | src/client.rs:240-246 | kills go exactly to the listed processes with a non-zero recorded id, each with that id, never the removal |
| `TeardownController.KillRequestsDistinct` | src/client.rs:240-246 | when no process is listed twice, no process is killed twice |
| `TeardownController.RegistryOrderKillsOnce` | src/client.rs:240-246 | teardown requests at most one kill per process |
| `TeardownController.KillReport` | src/client.rs:246-255 | a kill is logged as done exactly when `kill` exited with code 0, as failed exactly when it exited otherwise (with that exit code), and as not run exactly when `kill` could not be started; done and failed lines carry the pid that was killed |
| `TeardownController.ProcessReport` | src/client.rs:245-258 | a process is logged as skipped exactly when its id is 0, and otherwise with the outcome of killing it (its `KillReport`) |
| `TeardownController.KillReports` | src/client.rs:240-259 | one log line per process, whatever the kills return: line j is about the j-th process, is a skip exactly when its id is 0, and otherwise reports that process's kill outcome with its pid |
| `TeardownController.KillOutcomeLogged` | src/client.rs:245-255 | for a registry process with a non-zero id, teardown logs it as killed exactly when `kill` exited with 0, as failed (with that exit code) exactly when it exited otherwise, and as not run exactly when `kill` could not be started; killed and failed lines carry the recorded pid |
| `TeardownController.KillFailureLogged` | src/client.rs:245-255 | a kill of a registry process that did not exit with 0 is logged as failed or not run for that process, a failed line with its pid |
| `TeardownController.Teardown` | src/client.rs:218-264 | missing file: error, no kill, no removal; a bad entry: its error, no kill, no removal; otherwise the kill requests of the registry in order, then the removal, and `Ok` whatever the kills and the removal returned |
| `TeardownController.KillRecorded` | src/client.rs:240-259 | the kill loop requests exactly the kills and logs exactly the lines of the registry's processes, in order |
| `TeardownController.KillOrder` | src/client.rs:240-244 | the kill requests are those of geckodriver, then Xvfb, then x11vnc, each only if its id is non-zero |
| `TeardownController.TeardownOfWrittenRegistry` | src/client.rs:84-85 | tearing down what `build` registered kills the driver, Xvfb and x11vnc ids it recorded, in that order |
| `TeardownController.ExampleTeardown` | src/client.rs:220-259 | the registry "101\n202\n303\n" leads to kills of 101, 202, 303 in that order |
| `TeardownController.EmptyRegistryKillsNothing` | src/client.rs:256-258 | an empty registry requests no kill and logs a skip for each of the three processes |
| `Captcha.LowerConcat` | src/client.rs:141 | lowercasing distributes over concatenation |
| `Captcha.ToLowerAscii` | src/client.rs:141 | lowercasing keeps the length, leaves no upper-case ASCII letter, turns each upper-case letter into its lower-case partner and keeps every other character |
| `Captcha.IsCaptcha` | src/client.rs:141 | a URL is a challenge exactly when its lowercased text holds "captcha" at some position, so it is at least as long as the marker |
| `Captcha.Contains` | src/client.rs:141 | `contains` holds exactly when the pattern occurs at some position |
| `Captcha.MarkerFoundInAnyCase` | src/client.rs:141 | a URL holding the marker in any mix of cases, anywhere, is detected |
| `Captcha.NoLettersNoMarker` | src/client.rs:148 | a URL without letters is never detected |
| `Captcha.FirstExitUnique` | src/client.rs:144-152 | the loop's exit sample is unique |
| `Captcha.WaitIfCaptchaDetected` | src/client.rs:138-156 | no marker in the first URL: `Ok` with no sleep; otherwise the number of sleeps is the position of the first sample that fails or differs from the first URL without the marker, it never stops on a sample showing the marker, and a failed sample is an error |
| `Captcha.TwoChallengedSamplesThenClear` | src/client.rs:144-152 | challenged, challenged, clear: exactly two sleeps and `Ok` |
| `FailFast.StepsRun` | src/client.rs:40-85 | a `?` chain runs every step up to and including the first failing one |
| `FailFast.OkIffAllOk` | src/client.rs:40-85 | a `?` chain succeeds exactly when every step succeeds |
| `FailFast.RunIsDetermined` | src/client.rs:40-85 | the steps run and the outcome are determined by the steps' outcomes |
| `FailFast.NothingAfterFailure` | src/client.rs:40-85 | a failing step is the last one run |
| `Startup.CreateFirefoxProfile` | src/client.rs:158-216 | temp dir, user.js, extensions dir, existence check, copy, stopping at the first failure and returning it; the copy runs only if the extension exists |
| `Startup.MissingExtensionStopsBeforeCopy` | src/client.rs:198-213 | a missing extension fails profile creation after user.js and extensions/ were made and before the copy |
| `Startup.Build` | src/client.rs:35-100 | Xvfb, x11vnc, profile, geckodriver lookup, geckodriver spawn, connect, registry write, stopping at the first failure; the registry is written only after all six earlier stages succeeded, with the ids in the order driver, Xvfb, x11vnc, and after a successful start it reads back as the ids of the returned session |
| `Startup.MissingExtensionAbortsStartup` | src/client.rs:61-65 | a missing extension stops start-up at the profile stage; the registry is never written |
| `SignInFlow.EbaySignIn` | src/client.rs:102-136 | navigate, captcha wait, e-mail field, typing, continue button, click, stopping at the first failure; the e-mail is typed only after the captcha wait returned `Ok`; after a navigation that lands on a challenge the number of sleeps is the position of the loop's exit sample, and otherwise there is no sleep |
| `SignInFlow.NavigationFailureStopsEverything` | src/client.rs:104-107 | a failed navigation ends the sign-in before the captcha wait |

## Left out

- Process spawning: the commands and their arguments (display `:99`, `1280x1024x24`, `-nopw -forever`, port 4444, `DISPLAY`) are not modelled; a spawn is an oracle that gives a pid or fails.
- `which::which("geckodriver")` is an oracle that finds the driver or not.
- The WebDriver calls of `fantoccini` (`goto`, `current_url`, `wait().for_element`, `send_keys`, `find`, `click`) and the connection are oracles; the connection handle is not part of `Startup.Session`.
- The fixed 2-second sleeps are timing only and are not modelled.
- The text of the `user.js` preferences and the lifetime of the temporary profile directory (deleted when the `TempDir` is dropped) are not modelled.
- Logging: only the per-process outcome of teardown is modelled (`TeardownController.Report`); the other `info!`/`error!` lines are not. The closing "PID file removed" line is logged even when the removal failed.
- `fs::read_to_string` failing for any reason (absence, permissions, invalid UTF-8) is modelled as a missing registry; the registry text is a `seq<char>`.
- A partial write of the registry file by a failing `fs::write` is not modelled: `Startup.Build` reports the text it tried to write.
- `Captcha.IsCaptcha`: `to_lowercase` is Unicode lowercasing in Rust; the model lowercases ASCII letters only. For the test against "captcha" the two agree, because no non-ASCII character lowercases to any of the letters c, a, p, t, h.
- `Captcha.WaitIfCaptchaDetected`: requires that the samples contain a sample that ends the loop (or that the first sample fails or shows no marker); the source loop has no bound and never returns otherwise, which the model does not represent.
- `TeardownController.Teardown`: requires one kill outcome per registry process (`statuses[i]` is what a kill of the i-th process returns, looked at only if that kill is requested); the outcome of the file removal is a parameter that teardown ignores, as the source does.
- The `Listing` struct has no behaviour and is not modelled.
- `src/main.rs` (environment variables, subcommand dispatch, the unimplemented `View`), `src/utils.rs` (logger set-up) and `src/cli.rs` (argument definitions) are not part of this model.
