/**
 * `wait_if_captcha_detected`: after a navigation, sample the current URL;
 * if it shows the captcha marker, sleep and sample again until a URL turns
 * up that differs from the first one and no longer shows the marker.
 *
 * The WebDriver `current_url()` calls are an oracle: `samples[0]` is the
 * first URL, `samples[k]` the URL sampled after the k-th sleep.
 */
module Captcha {
  import opened Wrappers

  /** The challenge marker looked for in the lowercased URL. */
  const Marker: string := "captcha"

  function LowerChar(c: char): char {
    if 'A' <= c <= 'Z' then ((c as int) - ('A' as int) + ('a' as int)) as char else c
  }

  /**
   * Lowercasing of ASCII letters, every other character kept: the result
   * has the same length, holds no upper-case ASCII letter, maps each
   * upper-case letter to its lower-case partner and leaves the rest alone.
   */
  function ToLowerAscii(s: string): (r: string)
    ensures |r| == |s|
    ensures forall i :: 0 <= i < |r| ==> !('A' <= r[i] <= 'Z')
    ensures forall i :: 0 <= i < |s| && 'A' <= s[i] <= 'Z' ==> 'a' <= r[i] <= 'z' && r[i] as int == s[i] as int + 32
    ensures forall i :: 0 <= i < |s| && !('A' <= s[i] <= 'Z') ==> r[i] == s[i]
  {
    seq(|s|, i requires 0 <= i < |s| => LowerChar(s[i]))
  }

  /** Lowercasing works letter by letter, so it distributes over concatenation. */
  lemma LowerConcat(a: string, b: string)
    ensures ToLowerAscii(a + b) == ToLowerAscii(a) + ToLowerAscii(b)
  {
  }

  /** `pat` occurs in `s` starting at index `i`. */
  predicate OccursAt(s: string, pat: string, i: nat) {
    i + |pat| <= |s| && s[i..i + |pat|] == pat
  }

  lemma ShiftOccurrence(s: string, pat: string)
    requires |s| >= 1
    ensures forall i: nat :: OccursAt(s[1..], pat, i) <==> OccursAt(s, pat, i + 1)
  {
  }

  /** `s.contains(pat)`: `pat` occurs somewhere in `s`. */
  function Contains(s: string, pat: string): (b: bool)
    ensures b <==> exists i: nat :: OccursAt(s, pat, i)
    decreases |s|
  {
    if |s| < |pat| then false
    else if s[..|pat|] == pat then (assert OccursAt(s, pat, 0); true)
    else (
      ShiftOccurrence(s, pat);
      assert !OccursAt(s, pat, 0);
      assert forall i: nat :: OccursAt(s, pat, i) ==> i >= 1 && OccursAt(s[1..], pat, i - 1);
      Contains(s[1..], pat))
  }

  /**
   * `url.to_lowercase().contains("captcha")`: the lowercased URL has the
   * marker at some position, so the URL is at least as long as the marker.
   */
  predicate IsCaptcha(url: string)
    ensures IsCaptcha(url) <==> exists i: nat :: OccursAt(ToLowerAscii(url), Marker, i)
    ensures IsCaptcha(url) ==> |url| >= |Marker|
  {
    Contains(ToLowerAscii(url), Marker)
  }

  /** The marker is found whatever the case of its letters and wherever it sits in the URL. */
  lemma MarkerFoundInAnyCase(before: string, marker: string, after: string)
    requires ToLowerAscii(marker) == Marker
    ensures IsCaptcha(before + marker + after)
  {
    LowerConcat(before + marker, after);
    LowerConcat(before, marker);
    var lowered := ToLowerAscii(before) + Marker + ToLowerAscii(after);
    assert lowered[|before|..|before| + |Marker|] == Marker;
    assert OccursAt(lowered, Marker, |before|);
  }

  /** A URL of only non-letters never shows the marker. */
  lemma NoLettersNoMarker(url: string)
    requires forall i :: 0 <= i < |url| ==> !('A' <= url[i] <= 'Z') && !('a' <= url[i] <= 'z')
    ensures !IsCaptcha(url)
  {
    var lowered := ToLowerAscii(url);
    forall i: nat
      ensures !OccursAt(lowered, Marker, i)
    {
      if i < |lowered| {
        assert lowered[i] == url[i] != 'c';
      }
    }
  }

  /** A URL sample: the text of `current_url()`, or the error it returned. */
  datatype UrlSample = Url(text: string) | CommandError

  /** The only way the wait fails: a `current_url()` call failed. */
  datatype WaitError = CurrentUrlFailed

  /** The challenge has cleared: the new URL differs from the first one and does not show the marker. */
  predicate Clears(initial: string, url: string) {
    url != initial && !IsCaptcha(url)
  }

  /** The wait loop leaves after the k-th sleep: that sample failed or clears the challenge. */
  predicate ExitsAt(samples: seq<UrlSample>, k: nat) {
    && 1 <= k < |samples|
    && samples[0].Url?
    && (samples[k].CommandError? || Clears(samples[0].text, samples[k].text))
  }

  predicate IsFirstExit(samples: seq<UrlSample>, k: nat) {
    ExitsAt(samples, k) && forall j :: 1 <= j < k ==> !ExitsAt(samples, j)
  }

  /**
   * The samples end the wait: the first sample fails or shows no marker,
   * or some later sample makes the loop leave.  The source puts no bound
   * on the loop; samples without such an exit describe a wait that never
   * returns.
   */
  predicate Settles(samples: seq<UrlSample>) {
    && |samples| >= 1
    && (samples[0].CommandError? || !IsCaptcha(samples[0].text) || exists k: nat :: k < |samples| && ExitsAt(samples, k))
  }

  /** The wait returns `Ok`: no sample it read failed. */
  ghost predicate WaitSucceeds(samples: seq<UrlSample>)
    requires Settles(samples)
  {
    && samples[0].Url?
    && (!IsCaptcha(samples[0].text) || exists k: nat :: IsFirstExit(samples, k) && samples[k].Url?)
  }

  lemma FirstExitUnique(samples: seq<UrlSample>, k: nat, k': nat)
    requires IsFirstExit(samples, k) && IsFirstExit(samples, k')
    ensures k == k'
  {
  }

  /**
   * The wait.  No captcha in the first URL: return at once, without
   * sleeping.  Otherwise sleep and resample until the first sample that
   * clears the challenge; `sleeps` is that sample's position.  A failing
   * sample ends the wait with an error.
   */
  method WaitIfCaptchaDetected(samples: seq<UrlSample>) returns (r: Result<(), WaitError>, sleeps: nat)
    requires Settles(samples)
    ensures samples[0].CommandError? ==> r == Failure(CurrentUrlFailed) && sleeps == 0
    ensures samples[0].Url? && !IsCaptcha(samples[0].text) ==> r == Success(()) && sleeps == 0
    ensures samples[0].Url? && IsCaptcha(samples[0].text) ==>
      && IsFirstExit(samples, sleeps)
      && (r.Success? <==> samples[sleeps].Url?)
    ensures r.Failure? ==> r.error == CurrentUrlFailed
    ensures r.Success? && sleeps > 0 ==>
      samples[sleeps].Url? && samples[sleeps].text != samples[0].text && !IsCaptcha(samples[sleeps].text)
    ensures r.Success? <==> WaitSucceeds(samples)
  {
    sleeps := 0;
    if samples[0].CommandError? {
      return Failure(CurrentUrlFailed), sleeps;
    }
    var currentUrl := samples[0].text;
    if !IsCaptcha(currentUrl) {
      return Success(()), sleeps;
    }
    ghost var exit: nat :| ExitsAt(samples, exit);
    while true
      invariant sleeps < exit
      invariant forall j :: 1 <= j <= sleeps ==> !ExitsAt(samples, j)
      decreases exit - sleeps
    {
      // sleep(2 s), then sample the URL again
      sleeps := sleeps + 1;
      var sample := samples[sleeps];
      if sample.CommandError? {
        assert IsFirstExit(samples, sleeps);
        r := Failure(CurrentUrlFailed);
        if WaitSucceeds(samples) {
          var k: nat :| IsFirstExit(samples, k) && samples[k].Url?;
          FirstExitUnique(samples, k, sleeps);
        }
        return;
      }
      var newUrl := sample.text;
      if newUrl != currentUrl && !IsCaptcha(newUrl) {
        assert IsFirstExit(samples, sleeps);
        return Success(()), sleeps;
      }
    }
  }

  /**
   * Two challenged samples, then a clear one: the wait sleeps exactly
   * twice and returns `Ok`; it does not stop at the second sample, which
   * still shows the marker.
   */
  lemma TwoChallengedSamplesThenClear(first: string, second: string, third: string)
    requires IsCaptcha(first) && IsCaptcha(second)
    requires third != first && !IsCaptcha(third)
    ensures IsFirstExit([Url(first), Url(second), Url(third)], 2)
    ensures WaitSucceeds([Url(first), Url(second), Url(third)])
  {
  }
}
